/** Grouping sentence records into length buckets: each record goes to the first bucket
    whose threshold is at least its size, and every bucket keeps the longest lemma count
    and character count of its records, which later size the padded arrays. */
module Bucketing {
  import opened Wrappers
  import opened Tree
  import StackInputs

  /** One sentence as the reader hands it over, with its symbolic root at index 0:
      per word (eojul) the ids of its lemmas, per word and lemma the ids of its
      characters, per word the tag ids of its lemmas, the head array, the relation ids,
      the text and the comment lines. */
  datatype Instance = Instance(wordIds: seq<seq<int>>, charIds: seq<seq<seq<int>>>,
                               posIds: seq<seq<int>>, heads: seq<int>, typeIds: seq<int>,
                               sentence: string, comments: seq<string>)

  /** A bucketed record: the sentence with its decoder step lists. */
  datatype Entry = Entry(inst: Instance, trace: StackInputs.Inputs)

  /** The buckets with their records and the running maxima of each bucket. */
  datatype Dataset = Dataset(data: seq<seq<Entry>>, maxLemma: seq<nat>, maxChar: seq<nat>)

  /** The number of words of a sentence, the root included. */
  function Size(inst: Instance): nat {
    |inst.wordIds|
  }

  // ---------------------------------------------------------------------------
  // Choosing the bucket

  function FirstFitFrom(buckets: seq<int>, size: int, from: nat): (b: nat)
    requires from <= |buckets|
    ensures from <= b <= |buckets|
    ensures b < |buckets| ==> size <= buckets[b]
    ensures forall j :: from <= j < b ==> buckets[j] < size
    decreases |buckets| - from
  {
    if from == |buckets| then |buckets|
    else if size <= buckets[from] then from
    else FirstFitFrom(buckets, size, from + 1)
  }

  /** The first bucket whose threshold is at least size, or |buckets| when there is none. */
  function FirstFit(buckets: seq<int>, size: int): (b: nat)
    ensures b <= |buckets|
    ensures b < |buckets| ==> size <= buckets[b]
    ensures forall j :: 0 <= j < b ==> buckets[j] < size
  {
    FirstFitFrom(buckets, size, 0)
  }

  /** The record fits some bucket; a record larger than every threshold is dropped. */
  predicate Placed(buckets: seq<int>, inst: Instance) {
    FirstFit(buckets, Size(inst)) < |buckets|
  }

  /** The scan over the thresholds that stops at the first one the size fits. */
  method FindBucket(buckets: seq<int>, size: int) returns (b: nat)
    ensures b == FirstFit(buckets, size)
  {
    b := 0;
    while b < |buckets|
      invariant b <= |buckets|
      invariant FirstFitFrom(buckets, size, b) == FirstFit(buckets, size)
    {
      if size <= buckets[b] {
        return;
      }
      b := b + 1;
    }
  }

  // ---------------------------------------------------------------------------
  // Widths

  /** The largest of some lengths; 0 for none. */
  function Longest(lens: seq<nat>): (m: nat)
    ensures forall i :: 0 <= i < |lens| ==> lens[i] <= m
    ensures |lens| > 0 ==> exists i :: 0 <= i < |lens| && lens[i] == m
    ensures |lens| == 0 ==> m == 0
  {
    if |lens| == 0 then 0
    else
      var m := Longest(lens[..|lens| - 1]);
      if lens[|lens| - 1] <= m then m else lens[|lens| - 1]
  }

  /** The lengths of the lemmas' character lists, word by word and lemma by lemma. */
  function CharLengths(charIds: seq<seq<seq<int>>>): seq<nat> {
    if |charIds| == 0 then []
    else
      var word := charIds[|charIds| - 1];
      CharLengths(charIds[..|charIds| - 1]) + seq(|word|, l requires 0 <= l < |word| => |word[l]|)
  }

  /** CharLengths lists exactly the lengths of the character lists, in reading order. */
  lemma {:induction false} CharLengthsMembers(charIds: seq<seq<seq<int>>>)
    ensures forall n :: n in CharLengths(charIds) <==>
      exists w, l :: 0 <= w < |charIds| && 0 <= l < |charIds[w]| && n == |charIds[w][l]|
  {
    if |charIds| > 0 {
      var front := charIds[..|charIds| - 1];
      var word := charIds[|charIds| - 1];
      CharLengthsMembers(front);
      var tail := seq(|word|, l requires 0 <= l < |word| => |word[l]|);
      assert CharLengths(charIds) == CharLengths(front) + tail;
      forall n ensures n in CharLengths(charIds) <==>
        exists w, l :: 0 <= w < |charIds| && 0 <= l < |charIds[w]| && n == |charIds[w][l]|
      {
        if n in CharLengths(front) {
          var w, l :| 0 <= w < |front| && 0 <= l < |front[w]| && n == |front[w][l]|;
          assert charIds[w] == front[w];
        } else if n in tail {
          var l :| 0 <= l < |tail| && tail[l] == n;
          assert charIds[|charIds| - 1] == word;
        } else {
          forall w, l | 0 <= w < |charIds| && 0 <= l < |charIds[w]| ensures n != |charIds[w][l]| {
            if w < |front| {
              assert charIds[w] == front[w];
            } else {
              assert tail[l] == |charIds[w][l]|;
            }
          }
        }
      }
    }
  }

  /** The nested loop that collects the character-list lengths of a sentence. */
  method CollectCharLengths(charIds: seq<seq<seq<int>>>) returns (lens: seq<nat>)
    ensures lens == CharLengths(charIds)
  {
    lens := [];
    for w := 0 to |charIds|
      invariant lens == CharLengths(charIds[..w])
    {
      var word := charIds[w];
      ghost var before := lens;
      for l := 0 to |word|
        invariant lens == before + seq(l, k requires 0 <= k < l => |word[k]|)
      {
        lens := lens + [|word[l]|];
      }
      assert charIds[..w + 1][..w] == charIds[..w];
    }
    assert charIds[..|charIds|] == charIds;
  }

  /** The number of lemmas of each word. */
  function LemmaCounts(wordIds: seq<seq<int>>): (counts: seq<nat>)
    ensures |counts| == |wordIds| && forall w :: 0 <= w < |wordIds| ==> counts[w] == |wordIds[w]|
  {
    seq(|wordIds|, w requires 0 <= w < |wordIds| => |wordIds[w]|)
  }

  /** The lemma count of the longest word. */
  function LemmaWidth(inst: Instance): nat {
    Longest(LemmaCounts(inst.wordIds))
  }

  /** No word has more lemmas than the record's lemma width. */
  lemma WordsWithinWidth(inst: Instance)
    ensures forall w :: 0 <= w < |inst.wordIds| ==> |inst.wordIds[w]| <= LemmaWidth(inst)
  {
    var counts := LemmaCounts(inst.wordIds);
    assert forall w :: 0 <= w < |inst.wordIds| ==> counts[w] == |inst.wordIds[w]|;
  }

  /** The character count of the longest lemma. */
  function CharWidth(inst: Instance): nat {
    Longest(CharLengths(inst.charIds))
  }

  /** No lemma has more characters than the record's character width. */
  lemma CharsWithinWidth(inst: Instance)
    ensures forall w, l :: 0 <= w < |inst.charIds| && 0 <= l < |inst.charIds[w]| ==>
      |inst.charIds[w][l]| <= CharWidth(inst)
  {
    var lens := CharLengths(inst.charIds);
    CharLengthsMembers(inst.charIds);
    forall w, l | 0 <= w < |inst.charIds| && 0 <= l < |inst.charIds[w]|
      ensures |inst.charIds[w][l]| <= CharWidth(inst)
    {
      assert |inst.charIds[w][l]| in lens;
    }
  }

  /** The largest lemma width among some records; 0 for none. */
  function MaxLemmaIn(insts: seq<Instance>): (m: nat)
    ensures forall i :: 0 <= i < |insts| ==> LemmaWidth(insts[i]) <= m
    ensures |insts| > 0 ==> exists i :: 0 <= i < |insts| && LemmaWidth(insts[i]) == m
    ensures |insts| == 0 ==> m == 0
  {
    if |insts| == 0 then 0
    else
      var front := insts[..|insts| - 1];
      var m := MaxLemmaIn(front);
      var w := LemmaWidth(insts[|insts| - 1]);
      assert forall i :: 0 <= i < |front| ==> front[i] == insts[i];
      if w <= m then m else w
  }

  /** The largest character width among some records; 0 for none. */
  function MaxCharIn(insts: seq<Instance>): (m: nat)
    ensures forall i :: 0 <= i < |insts| ==> CharWidth(insts[i]) <= m
    ensures |insts| > 0 ==> exists i :: 0 <= i < |insts| && CharWidth(insts[i]) == m
    ensures |insts| == 0 ==> m == 0
  {
    if |insts| == 0 then 0
    else
      var front := insts[..|insts| - 1];
      var m := MaxCharIn(front);
      var w := CharWidth(insts[|insts| - 1]);
      assert forall i :: 0 <= i < |front| ==> front[i] == insts[i];
      if w <= m then m else w
  }

  // ---------------------------------------------------------------------------
  // The buckets the records belong to

  /** The records of bucket b, in input order: those present whose first fit is b. */
  function InBucket(records: seq<Option<Instance>>, buckets: seq<int>, b: int): seq<Instance> {
    if |records| == 0 then []
    else
      var last := records[|records| - 1];
      InBucket(records[..|records| - 1], buckets, b) +
      (if last.Some? && FirstFit(buckets, Size(last.value)) == b then [last.value] else [])
  }

  /** A record is in bucket b exactly when it was read and b is its first fit, so it is
      in one bucket at most and a record too large for every bucket is in none. */
  lemma {:induction false} InBucketMembers(records: seq<Option<Instance>>, buckets: seq<int>, b: int)
    ensures forall x :: x in InBucket(records, buckets, b) <==>
      Some(x) in records && FirstFit(buckets, Size(x)) == b
  {
    if |records| > 0 {
      var front := records[..|records| - 1];
      InBucketMembers(front, buckets, b);
      assert records == front + [records[|records| - 1]];
    }
  }

  /** Reading more records only appends to a bucket: what it held stays, in order. */
  lemma {:induction false} InBucketGrows(records: seq<Option<Instance>>, more: seq<Option<Instance>>,
                                         buckets: seq<int>, b: int)
    ensures InBucket(records, buckets, b) <= InBucket(records + more, buckets, b)
    decreases |more|
  {
    if |more| > 0 {
      var front := more[..|more| - 1];
      InBucketGrows(records, front, buckets, b);
      var all := records + more;
      assert all[..|all| - 1] == records + front;
      var last := all[|all| - 1];
      var mid := InBucket(records + front, buckets, b);
      var added := if last.Some? && FirstFit(buckets, Size(last.value)) == b then [last.value] else [];
      assert InBucket(all, buckets, b) == mid + added;
      assert mid <= mid + added;
    } else {
      assert records + more == records;
    }
  }

  /** A longer list of records has maxima at least as large. */
  lemma MaxInGrows(insts: seq<Instance>, longer: seq<Instance>)
    requires insts <= longer
    ensures MaxLemmaIn(insts) <= MaxLemmaIn(longer)
    ensures MaxCharIn(insts) <= MaxCharIn(longer)
  {
    if |insts| > 0 {
      var i :| 0 <= i < |insts| && LemmaWidth(insts[i]) == MaxLemmaIn(insts);
      var j :| 0 <= j < |insts| && CharWidth(insts[j]) == MaxCharIn(insts);
      assert insts[i] == longer[i] && insts[j] == longer[j];
    }
  }

  /** The maxima of every bucket never decrease as records are read. */
  lemma MaximaNeverDecrease(records: seq<Option<Instance>>, more: seq<Option<Instance>>,
                            buckets: seq<int>, b: int)
    ensures MaxLemmaIn(InBucket(records, buckets, b)) <= MaxLemmaIn(InBucket(records + more, buckets, b))
    ensures MaxCharIn(InBucket(records, buckets, b)) <= MaxCharIn(InBucket(records + more, buckets, b))
  {
    InBucketGrows(records, more, buckets, b);
    MaxInGrows(InBucket(records, buckets, b), InBucket(records + more, buckets, b));
  }

  // ---------------------------------------------------------------------------
  // Reading a list of sentences

  /** What the source demands of a record that reaches a bucket: a head array over the
      words that a known order can walk, and at least one word and one lemma for the
      maxima. */
  predicate Ready(inst: Instance, priorOrder: string) {
    |inst.heads| >= 1 && InRange(inst.heads) && |inst.typeIds| == |inst.heads| &&
    var o := StackInputs.ParseOrder(priorOrder);
    o.Some? ==>
      (StackInputs.NeedsTree(o.value) ==> Rooted(inst.heads)) &&
      |inst.wordIds| > 0 && |CharLengths(inst.charIds)| > 0
  }

  /** The entry's step lists are what the generator makes for its sentence. */
  predicate WellGenerated(e: Entry, priorOrder: string, padTag: int) {
    Ready(e.inst, priorOrder) &&
    var o := StackInputs.ParseOrder(priorOrder);
    o.Some? && StackInputs.Generated(e.inst.heads, e.inst.typeIds, o.value, padTag, e.trace)
  }

  /** Every entry of every bucket is well generated. */
  predicate AllGenerated(data: seq<seq<Entry>>, priorOrder: string, padTag: int) {
    forall b, k :: 0 <= b < |data| && 0 <= k < |data[b]| ==> WellGenerated(data[b][k], priorOrder, padTag)
  }

  /** Bucket b holds, in reading order, the entries of the records whose first fit is b,
      with that bucket's maxima. */
  predicate BucketHolds(ds: Dataset, records: seq<Option<Instance>>, buckets: seq<int>, b: int)
    requires 0 <= b < |ds.data| && |ds.maxLemma| == |ds.data| && |ds.maxChar| == |ds.data|
  {
    var insts := InBucket(records, buckets, b);
    |ds.data[b]| == |insts| &&
    (forall k :: 0 <= k < |insts| ==> ds.data[b][k].inst == insts[k]) &&
    ds.maxLemma[b] == MaxLemmaIn(insts) && ds.maxChar[b] == MaxCharIn(insts)
  }

  /** The dataset is the bucketing of the records. */
  predicate Bucketed(ds: Dataset, records: seq<Option<Instance>>, buckets: seq<int>) {
    |ds.data| == |buckets| && |ds.maxLemma| == |buckets| && |ds.maxChar| == |buckets| &&
    forall b :: 0 <= b < |buckets| ==> BucketHolds(ds, records, buckets, b)
  }

  /** Some read record fits a bucket. */
  predicate AnyPlaced(records: seq<Option<Instance>>, buckets: seq<int>) {
    exists i :: 0 <= i < |records| && records[i].Some? && Placed(buckets, records[i].value)
  }

  /** Reads the sentences into buckets. A sentence the reader rejects (None) is skipped, a
      sentence too large for every bucket is dropped. An unknown prior order fails at the
      first sentence that reaches a bucket. */
  method ReadStackedDataList(sentences: seq<Option<Instance>>, buckets: seq<int>,
                             priorOrder: string, padTag: int)
    returns (res: Result<Dataset, string>)
    requires forall i :: 0 <= i < |sentences| && sentences[i].Some? && Placed(buckets, sentences[i].value) ==>
      Ready(sentences[i].value, priorOrder)
    ensures res.Failure? <==> StackInputs.ParseOrder(priorOrder).None? && AnyPlaced(sentences, buckets)
    ensures res.Failure? ==> res.error == "Unknown prior order: " + priorOrder
    ensures res.Success? ==> Bucketed(res.value, sentences, buckets)
    ensures res.Success? ==> AllGenerated(res.value.data, priorOrder, padTag)
  {
    var data: seq<seq<Entry>> := seq(|buckets|, _ => []);
    var maxLemma: seq<nat> := seq(|buckets|, _ => 0);
    var maxChar: seq<nat> := seq(|buckets|, _ => 0);
    EmptyBucketed(buckets);
    assert sentences[..0] == [];
    for i := 0 to |sentences|
      invariant Bucketed(Dataset(data, maxLemma, maxChar), sentences[..i], buckets)
      invariant AllGenerated(data, priorOrder, padTag)
      invariant !AnyPlaced(sentences[..i], buckets) || StackInputs.ParseOrder(priorOrder).Some?
    {
      assert sentences[..i + 1] == sentences[..i] + [sentences[i]];
      if sentences[i].None? {
        SkipKeepsBucketed(Dataset(data, maxLemma, maxChar), sentences[..i], sentences[i], buckets);
        NotPlacedStep(sentences[..i], sentences[i], buckets);
        continue;
      }
      var inst := sentences[i].value;
      var b := FindBucket(buckets, Size(inst));
      if b == |buckets| {
        SkipKeepsBucketed(Dataset(data, maxLemma, maxChar), sentences[..i], sentences[i], buckets);
        NotPlacedStep(sentences[..i], sentences[i], buckets);
        continue;
      }
      var gen := StackInputs.GenerateStackInputs(inst.heads, inst.typeIds, priorOrder, padTag);
      if gen.Failure? {
        assert sentences[i].Some? && Placed(buckets, sentences[i].value);
        return Failure(gen.error);
      }
      var lens := CollectCharLengths(inst.charIds);
      var charLen := Longest(lens);
      var lemmaLen := LemmaWidth(inst);
      ghost var before := Dataset(data, maxLemma, maxChar);
      GeneratedAppend(data, b, Entry(inst, gen.value), priorOrder, padTag);
      data := data[b := data[b] + [Entry(inst, gen.value)]];
      if maxChar[b] < charLen {
        maxChar := maxChar[b := charLen];
      }
      if maxLemma[b] < lemmaLen {
        maxLemma := maxLemma[b := lemmaLen];
      }
      PlaceKeepsBucketed(before, Dataset(data, maxLemma, maxChar), sentences[..i], Entry(inst, gen.value), buckets, b);
      PlacedStep(sentences[..i], sentences[i], buckets);
    }
    assert sentences[..|sentences|] == sentences;
    return Success(Dataset(data, maxLemma, maxChar));
  }

  lemma EmptyBucketed(buckets: seq<int>)
    ensures Bucketed(Dataset(seq(|buckets|, _ => []), seq(|buckets|, _ => 0), seq(|buckets|, _ => 0)), [], buckets)
  {
  }

  lemma NotPlacedStep(records: seq<Option<Instance>>, r: Option<Instance>, buckets: seq<int>)
    requires r.None? || !Placed(buckets, r.value)
    ensures AnyPlaced(records + [r], buckets) == AnyPlaced(records, buckets)
  {
    if AnyPlaced(records + [r], buckets) {
      var i :| 0 <= i < |records + [r]| && (records + [r])[i].Some? && Placed(buckets, (records + [r])[i].value);
      assert i < |records| && records[i] == (records + [r])[i];
    }
    if AnyPlaced(records, buckets) {
      var i :| 0 <= i < |records| && records[i].Some? && Placed(buckets, records[i].value);
      assert (records + [r])[i] == records[i];
    }
  }

  lemma PlacedStep(records: seq<Option<Instance>>, r: Option<Instance>, buckets: seq<int>)
    requires r.Some? && Placed(buckets, r.value)
    ensures AnyPlaced(records + [r], buckets)
  {
    assert (records + [r])[|records|] == r;
  }

  /** Appending a well-generated entry to one bucket keeps every entry well generated. */
  lemma GeneratedAppend(data: seq<seq<Entry>>, b: nat, e: Entry, priorOrder: string, padTag: int)
    requires AllGenerated(data, priorOrder, padTag) && b < |data|
    requires WellGenerated(e, priorOrder, padTag)
    ensures AllGenerated(data[b := data[b] + [e]], priorOrder, padTag)
  {
    var data' := data[b := data[b] + [e]];
    forall c, k | 0 <= c < |data'| && 0 <= k < |data'[c]| ensures WellGenerated(data'[c][k], priorOrder, padTag) {
      if c != b {
        assert data'[c] == data[c];
      } else if k < |data[b]| {
        assert data'[c][k] == data[b][k];
      }
    }
  }

  /** A record that reaches no bucket changes nothing. */
  lemma SkipKeepsBucketed(ds: Dataset, records: seq<Option<Instance>>, r: Option<Instance>, buckets: seq<int>)
    requires Bucketed(ds, records, buckets)
    requires r.None? || !Placed(buckets, r.value)
    ensures Bucketed(ds, records + [r], buckets)
  {
    forall b | 0 <= b < |buckets| ensures BucketHolds(ds, records + [r], buckets, b) {
      assert (records + [r])[..|records|] == records;
      assert InBucket(records + [r], buckets, b) == InBucket(records, buckets, b);
      SameRecordsHold(ds, records, records + [r], buckets, b);
    }
  }

  /** A bucket whose records are the same holds the same. */
  lemma SameRecordsHold(ds: Dataset, records: seq<Option<Instance>>, records': seq<Option<Instance>>,
                        buckets: seq<int>, b: int)
    requires 0 <= b < |ds.data| && |ds.maxLemma| == |ds.data| && |ds.maxChar| == |ds.data|
    requires BucketHolds(ds, records, buckets, b)
    requires InBucket(records', buckets, b) == InBucket(records, buckets, b)
    ensures BucketHolds(ds, records', buckets, b)
  {
  }

  /** Appending an entry and its record keeps entries and records matched. */
  lemma EntriesAppend(es: seq<Entry>, insts: seq<Instance>, e: Entry)
    requires |es| == |insts| && forall k :: 0 <= k < |insts| ==> es[k].inst == insts[k]
    ensures forall k :: 0 <= k < |insts| + 1 ==> (es + [e])[k].inst == (insts + [e.inst])[k]
  {
    forall k | 0 <= k < |insts| + 1 ensures (es + [e])[k].inst == (insts + [e.inst])[k] {
      if k < |insts| {
        assert (es + [e])[k] == es[k] && (insts + [e.inst])[k] == insts[k];
      }
    }
  }

  /** The bucket that takes the entry holds the records read so far. */
  lemma PlaceTarget(ds: Dataset, ds': Dataset, records: seq<Option<Instance>>, e: Entry, buckets: seq<int>, b: nat)
    requires |ds.data| == |buckets| && |ds.maxLemma| == |buckets| && |ds.maxChar| == |buckets|
    requires b == FirstFit(buckets, Size(e.inst)) && b < |buckets|
    requires BucketHolds(ds, records, buckets, b)
    requires ds'.data == ds.data[b := ds.data[b] + [e]]
    requires ds'.maxLemma == ds.maxLemma[b := if ds.maxLemma[b] < LemmaWidth(e.inst) then LemmaWidth(e.inst) else ds.maxLemma[b]]
    requires ds'.maxChar == ds.maxChar[b := if ds.maxChar[b] < CharWidth(e.inst) then CharWidth(e.inst) else ds.maxChar[b]]
    ensures BucketHolds(ds', records + [Some(e.inst)], buckets, b)
  {
    var rs := records + [Some(e.inst)];
    assert rs[..|records|] == records;
    var insts := InBucket(records, buckets, b);
    assert InBucket(rs, buckets, b) == insts + [e.inst];
    assert (insts + [e.inst])[..|insts|] == insts;
    EntriesAppend(ds.data[b], insts, e);
  }

  /** The other buckets are unchanged. */
  lemma PlaceOther(ds: Dataset, ds': Dataset, records: seq<Option<Instance>>, inst: Instance,
                   buckets: seq<int>, b: nat, c: nat)
    requires |ds.data| == |buckets| && |ds.maxLemma| == |buckets| && |ds.maxChar| == |buckets|
    requires b == FirstFit(buckets, Size(inst)) && b < |buckets| && c < |buckets| && c != b
    requires BucketHolds(ds, records, buckets, c)
    requires |ds'.data| == |buckets| && |ds'.maxLemma| == |buckets| && |ds'.maxChar| == |buckets|
    requires ds'.data[c] == ds.data[c] && ds'.maxLemma[c] == ds.maxLemma[c] && ds'.maxChar[c] == ds.maxChar[c]
    ensures BucketHolds(ds', records + [Some(inst)], buckets, c)
  {
    var rs := records + [Some(inst)];
    assert rs[..|records|] == records;
    assert InBucket(rs, buckets, c) == InBucket(records, buckets, c);
  }

  /** Appending the entry to its first-fit bucket and raising that bucket's maxima keeps
      the dataset the bucketing of the records read so far. */
  lemma PlaceKeepsBucketed(ds: Dataset, ds': Dataset, records: seq<Option<Instance>>, e: Entry,
                           buckets: seq<int>, b: nat)
    requires Bucketed(ds, records, buckets)
    requires b == FirstFit(buckets, Size(e.inst)) && b < |buckets|
    requires ds'.data == ds.data[b := ds.data[b] + [e]]
    requires ds'.maxLemma == ds.maxLemma[b := if ds.maxLemma[b] < LemmaWidth(e.inst) then LemmaWidth(e.inst) else ds.maxLemma[b]]
    requires ds'.maxChar == ds.maxChar[b := if ds.maxChar[b] < CharWidth(e.inst) then CharWidth(e.inst) else ds.maxChar[b]]
    ensures Bucketed(ds', records + [Some(e.inst)], buckets)
  {
    forall c | 0 <= c < |buckets| ensures BucketHolds(ds', records + [Some(e.inst)], buckets, c) {
      if c == b {
        PlaceTarget(ds, ds', records, e, buckets, b);
      } else {
        PlaceOther(ds, ds', records, e.inst, buckets, b, c);
      }
    }
  }
}
