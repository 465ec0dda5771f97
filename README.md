# Stacked-pointer data pipeline, modelled in Dafny

This project models the data side of NeuroNLP2's stack-pointer dependency parser: the
module `bin/neuronlp2/io/conllx_stacked_data.py`. It turns sentences into training batches
in five stages.

1. **Child index.** For every node of a dependency tree (a head array with the symbolic
   root at index 0), build its list of children in one of five prior orders:
   `left2right`, `right2left`, `inside_out`, `deep_first` or `shallow_first`. The depth
   orders stably sort by subtree height.
2. **Decoder inputs.** `_generate_stack_inputs` walks the tree with an explicit stack.
   Each step emits five parallel lists: stacked heads, children, siblings, stacked types
   and skip connections.
3. **Bucketing.** `read_stacked_data_list` appends each record to the first bucket that
   its length fits. Each bucket keeps the largest lemma count and the largest character
   count among its records.
4. **Packing.** `read_stacked_data_to_variable` packs every non-empty bucket into padded
   arrays with masks and lengths. An empty bucket gets a placeholder.
5. **Batching.** `get_batch_stacked_variable` draws a random batch from a bucket chosen in
   proportion to its size. `iterate_batch_stacked_variable` walks every bucket in batches.
   Both can hide singleton words with Bernoulli noise.

Files:

| file | contents |
|---|---|
| `wrappers.dfy` | the `Option` and `Result` values of the error paths |
| `seq_util.dfy` | sequence and set helpers |
| `tree.dfy` | head arrays, rootedness, subtrees, the ascending child list `Children` |
| `child_order.dfy` | the three index-order builders, written as loops |
| `depth_order.dfy` | `calc_depth` and the depth orders |
| `stack_inputs.dfy` | the order dispatcher and the stack walk |
| `bucketing.dfy` | bucket choice, the width maxima and the bucketing loop |
| `packing.dfy` | padding, masks, and packing rows into an array |
| `batching.dfy` | bucket choice by prefix sums, noise, random batches and the walk |

Imperative code in the source is modelled as methods with loops. Each method is proved
against a specification function, and lemmas prove the source's promises about those
functions.

**Random draws are explicit inputs:**
- The uniform number u in [0, 1) is represented by the integer r = ⌊u · total⌋, where
  total is the number of records. Bucket i's cumulative share exceeds u exactly when its
  cumulative count exceeds r, so the float test becomes an integer comparison.
- `torch.randperm` and `np.random.shuffle` are permutations given as inputs.
- `bernoulli_` is a 0/1 grid given as input.

**The vocabulary's singleton test** is a function parameter `isSingleton`.

**Constants** (`_buckets`, `PAD_ID_*`, `MAX_EOJUL_LENGTH`, `NUM_EOJUL_PAD`,
`MAX_CHAR_LENGTH`, `NUM_CHAR_PAD`) are fields of a `Config` value. Their values live in
`conllx_data.py` and `utils.py`, which are not part of this model.

**Noise.** The code hides a word by multiplying it by `1 - single * noise`, so a hidden
cell becomes 0. That is the same as replacing it by the unknown-word id only when
`UNK_ID` is 0.

## Model

| member | source | states |
|---|---|---|
| Tree.ChildrenSpec | bin/neuronlp2/io/conllx_stacked_data.py:13-19 | The left-to-right list of h holds exactly the nodes c ≥ 1 with heads[c] == h, strictly increasing. |
| ChildOrder.Left2Right | bin/neuronlp2/io/conllx_stacked_data.py:13-19 | The loop's list for every node is the ascending list of its children. |
| ChildOrder.Left2RightSpec | bin/neuronlp2/io/conllx_stacked_data.py:13-19 | The list holds exactly the real nodes headed by h, strictly increasing. |
| ChildOrder.Left2RightComplete | bin/neuronlp2/io/conllx_stacked_data.py:13-19 | The index lists every real node exactly once, under its own head. |
| ChildOrder.Right2Left | bin/neuronlp2/io/conllx_stacked_data.py:22-28 | The loop's list for every node is the reversal of its ascending child list. |
| ChildOrder.Right2LeftSpec | bin/neuronlp2/io/conllx_stacked_data.py:22-28 | The list holds exactly the real nodes headed by h, strictly decreasing. |
| ChildOrder.Right2LeftComplete | bin/neuronlp2/io/conllx_stacked_data.py:22-28 | The index lists every real node exactly once, under its own head. |
| ChildOrder.InsideOut | bin/neuronlp2/io/conllx_stacked_data.py:31-42 | For any head values, the two scans build every node's inside-out list; by InsideOutMembers a node whose head is out of range is in no list. |
| ChildOrder.InsideOutMembers | bin/neuronlp2/io/conllx_stacked_data.py:31-42 | The list of h holds exactly the real nodes c ≠ h with heads[c] == h. |
| ChildOrder.InsideOutOrdering | bin/neuronlp2/io/conllx_stacked_data.py:34-41 | Left children come first, nearest first. Right children follow, nearest first. |
| ChildOrder.InsideOutComplete | bin/neuronlp2/io/conllx_stacked_data.py:31-42 | Without self-headed nodes, the index lists every real node exactly once. |
| DepthOrder.HeightIsMax | bin/neuronlp2/io/conllx_stacked_data.py:46-54 | The height of a leaf is 0. Otherwise it is one more than its tallest child. |
| DepthOrder.CalcDepth | bin/neuronlp2/io/conllx_stacked_data.py:46-54 | The recursion returns the subtree height of head. Its subtree's entries become the children paired with their heights, sorted; entries outside the subtree stay unchanged. |
| DepthOrder.SortByDepthMultiset | bin/neuronlp2/io/conllx_stacked_data.py:53 | The sort by depth is a permutation. |
| DepthOrder.SortByDepthLexOrdered | bin/neuronlp2/io/conllx_stacked_data.py:53 | The sort orders by depth (descending when reverse). It is stable, so equal depths keep index order. |
| DepthOrder.DepthChildIndex | bin/neuronlp2/io/conllx_stacked_data.py:45-59 | Every node's list is its depth-ordered child list. |
| DepthOrder.DepthOrderSpec | bin/neuronlp2/io/conllx_stacked_data.py:45-59 | The list is a permutation of the children. It is ordered by subtree height (highest first when reverse); ties go by index. |
| DepthOrder.DepthOrderIsComplete | bin/neuronlp2/io/conllx_stacked_data.py:45-59 | The depth index lists every real node exactly once, under its own head. |
| StackInputs.ParseOrder | bin/neuronlp2/io/conllx_stacked_data.py:62-76 | A name is accepted exactly when it names one of the five orders. |
| StackInputs.ParseOrderName | bin/neuronlp2/io/conllx_stacked_data.py:62-72 | Each order's name parses back to that order. |
| StackInputs.ObtainChildIndex | bin/neuronlp2/io/conllx_stacked_data.py:62-72 | The dispatcher returns the child index of the chosen order. |
| StackInputs.EveryOrderListsChildren | bin/neuronlp2/io/conllx_stacked_data.py:62-72 | Under every order, a node's list holds exactly its children. |
| StackInputs.OrderedIndexIsComplete | bin/neuronlp2/io/conllx_stacked_data.py:62-72 | Under every order, a rooted tree's index lists every real node exactly once. |
| StackInputs.LastVisitSpec | bin/neuronlp2/io/conllx_stacked_data.py:92-93 | The skip position is the last earlier visit of the same head, or 0 when there is none. |
| StackInputs.StackTrace | bin/neuronlp2/io/conllx_stacked_data.py:78-107 | The five lists are parallel. The walk starts at the root, and closing the root is its last step and only there. A step closes its head, with the pad tag, exactly when the head has taken its whole list; otherwise it takes the next child of the list, with the child's type. The next step stands at the child just taken, or after a close at the closed head's parent. Each skip connection is the head's previous visit, and each sibling the child taken at that visit. For a rooted tree with a complete index there are 2n-1 steps. |
| StackInputs.TraceIsUnique | bin/neuronlp2/io/conllx_stacked_data.py:84-105 | Two step lists that both meet StackTrace's contract for the same child index are equal: the contract fixes the walk. |
| StackInputs.LeftToRightExample | bin/neuronlp2/io/conllx_stacked_data.py:84-105 | For heads [0, 0, 1, 1] in left-to-right order, the stacked heads are [0, 1, 2, 1, 3, 1, 0], the children [1, 2, 2, 3, 3, 1, 0], the siblings [0, 0, 0, 2, 0, 3, 1], the skip connections [0, 0, 0, 2, 0, 4, 1], and the stacked types the types of nodes 1, 2 and 3 on the three descents and the pad tag on the four closes. |
| StackInputs.GenerateStackInputs | bin/neuronlp2/io/conllx_stacked_data.py:62-107 | An unknown order name fails with "Unknown prior order: " plus the name. Otherwise the result is the walk of that order's child index, as StackTrace states it. |
| StackInputs.GeneratedIsUnique | bin/neuronlp2/io/conllx_stacked_data.py:62-107 | The generator's step lists are determined by the head array, the types and the order. |
| Bucketing.FirstFit | bin/neuronlp2/io/conllx_stacked_data.py:164-165 | This is the first threshold at least the size; every earlier threshold is smaller. It returns the number of thresholds when none fits. |
| Bucketing.FindBucket | bin/neuronlp2/io/conllx_stacked_data.py:164-181 | The scan with its `break` finds the first threshold the size fits. |
| Bucketing.Longest | bin/neuronlp2/io/conllx_stacked_data.py:173 | The result is an upper bound that is reached, or 0 for no lengths. |
| Bucketing.CollectCharLengths | bin/neuronlp2/io/conllx_stacked_data.py:169-172 | The nested loop collects the character-list lengths, word by word. |
| Bucketing.CharLengthsMembers | bin/neuronlp2/io/conllx_stacked_data.py:169-172 | The lengths collected are exactly the lengths of the character lists. |
| Bucketing.LemmaCounts | bin/neuronlp2/io/conllx_stacked_data.py:178 | Position w holds the number of lemmas of word w. |
| Bucketing.WordsWithinWidth | bin/neuronlp2/io/conllx_stacked_data.py:178 | No word has more lemmas than the record's lemma maximum. |
| Bucketing.CharsWithinWidth | bin/neuronlp2/io/conllx_stacked_data.py:169-173 | No lemma has more characters than the record's character maximum. |
| Bucketing.MaxLemmaIn | bin/neuronlp2/io/conllx_stacked_data.py:178-180 | A bucket's lemma maximum bounds every record of the bucket and is reached by one, or is 0 when the bucket is empty. |
| Bucketing.MaxCharIn | bin/neuronlp2/io/conllx_stacked_data.py:173-176 | A bucket's character maximum bounds every record of the bucket and is reached by one, or is 0 when the bucket is empty. |
| Bucketing.InBucketMembers | bin/neuronlp2/io/conllx_stacked_data.py:155-168 | A bucket holds exactly the read records whose first fit is that bucket. |
| Bucketing.InBucketGrows | bin/neuronlp2/io/conllx_stacked_data.py:167-168 | Reading more sentences only appends to a bucket. |
| Bucketing.MaximaNeverDecrease | bin/neuronlp2/io/conllx_stacked_data.py:175-180 | A bucket's maxima never decrease as sentences are read. |
| Bucketing.ReadStackedDataList | bin/neuronlp2/io/conllx_stacked_data.py:148-183 | It fails exactly when the order name is unknown and some record reaches a bucket; the message names the order. On success: every bucket holds its records in reading order, each with the decoder lists the generator makes for it (there is one such set of lists, by GeneratedIsUnique); skipped and oversize records are in no bucket; the maxima are those of the bucket's records. |
| Packing.PadTo | bin/neuronlp2/io/conllx_stacked_data.py:248-252 | The row keeps the values below their length, with the pad value up to the width. |
| Packing.PadToPrefix | bin/neuronlp2/io/conllx_stacked_data.py:248-252 | The padded row read back to the length gives the values; the pad fills the rest. |
| Packing.PadGrid | bin/neuronlp2/io/conllx_stacked_data.py:228-231 | A width × depth grid with the word's lemma ids in place and the pad elsewhere. |
| Packing.PadCube | bin/neuronlp2/io/conllx_stacked_data.py:234-239 | A width × depth × chars cube with the character ids in place and the pad elsewhere. |
| Packing.Mask | bin/neuronlp2/io/conllx_stacked_data.py:254 | The mask is 1 exactly below the length and 0 exactly from it on. |
| Packing.SingletonGrid | bin/neuronlp2/io/conllx_stacked_data.py:255-258 | A cell is 1 exactly where the record's word id is a singleton; every other cell is 0. |
| Packing.PackRowCells | bin/neuronlp2/io/conllx_stacked_data.py:223-278 | The lengths are n and 2n-1. Cell by cell, the word, pos and character arrays hold the record's ids where it has them and the padding id elsewhere; heads and types read back as the record below n with the pad tag after it. The singleton flags are 1 exactly on the record's singleton words and 0 elsewhere. The encoder mask is 1 exactly below n and the decoder mask exactly below 2n-1. The decoder fields read back as the walk below 2n-1, with the pad tag after it. |
| Packing.BucketDims | bin/neuronlp2/io/conllx_stacked_data.py:198-200 | The bucket width is the threshold. The lemma and character widths are the maxima plus their extra padding, clamped to the ceilings. |
| Packing.EntryFits | bin/neuronlp2/io/conllx_stacked_data.py:201-218 | A packable record no wider than the bucket fits its arrays. |
| Packing.BucketFits | bin/neuronlp2/io/conllx_stacked_data.py:198-218 | Every record of a bucket fits the widths computed from the bucket's maxima. |
| Packing.PackBucket | bin/neuronlp2/io/conllx_stacked_data.py:220-280 | Row i of the array is the packed row of record i, with its sentence and comments. |
| Packing.PackSlot | bin/neuronlp2/io/conllx_stacked_data.py:192-280 | An empty bucket gets the placeholder. Otherwise the slot has the bucket's widths and one packed row per record, in bucket order, with the record's sentence and comments. Each row's encoder fields are the record's ids and its decoder fields the record's generated walk, padded. |
| Packing.RowOfIsUnique | bin/neuronlp2/io/conllx_stacked_data.py:220-280 | A record has exactly one packed row at given widths, decoder fields included. |
| Packing.ReadStackedDataToVariable | bin/neuronlp2/io/conllx_stacked_data.py:185-319 | It fails as bucketing fails. On success there is one slot and one size per bucket; each size is the bucket's record count and each slot packs the bucket's records, every row being the one RowOfIsUnique fixes. |
| Batching.ChooseBucket | bin/neuronlp2/io/conllx_stacked_data.py:324-333 | The least bucket whose cumulative count exceeds r. |
| Batching.ChosenInterval | bin/neuronlp2/io/conllx_stacked_data.py:324-333 | Bucket b is chosen exactly for the r in [prefix(b), prefix(b+1)). |
| Batching.ChosenNonEmpty | bin/neuronlp2/io/conllx_stacked_data.py:333-334 | The chosen bucket is never empty. |
| Batching.ChoiceProportional | bin/neuronlp2/io/conllx_stacked_data.py:324-333 | Of the total equally likely draws, exactly sizes[b] choose bucket b. |
| Batching.UnpackAsWritten | bin/neuronlp2/io/conllx_stacked_data.py:336 | As written, binding three names to a bucket's tuple fails with a ValueError for every slot, packed or placeholder. |
| Batching.GetBatchUnpackFails | bin/neuronlp2/io/conllx_stacked_data.py:333-336 | Every draw chooses a packed bucket with a four-part tuple. The unpacking as written rejects it; unpacking into four names gives the slot that GetBatch reads. |
| Batching.NoiseWords | bin/neuronlp2/io/conllx_stacked_data.py:347-350 | With 0/1 flags and noise, a word id becomes 0 exactly where both are 1; every other id is kept. |
| Batching.GetBatch | bin/neuronlp2/io/conllx_stacked_data.py:322-369 | The chosen bucket is non-empty. The batch takes the first min(size, batchSize) entries of the permutation: distinct positions in the bucket, one row each. |
| Batching.BatchRows | bin/neuronlp2/io/conllx_stacked_data.py:341-350 | Row k is the record at index[k], with every field unchanged except the word ids. Those are hidden exactly where the singleton flag and the noise are both 1, and unchanged without noise. |
| Batching.ChunksCover | bin/neuronlp2/io/conllx_stacked_data.py:398-402 | The slices of at most batchSize entries, put back together, give the whole record order. |
| Batching.BucketBatches | bin/neuronlp2/io/conllx_stacked_data.py:398-410 | The loop over start positions yields the batches of consecutive slices. |
| Batching.VisitBucket | bin/neuronlp2/io/conllx_stacked_data.py:379-410 | An empty bucket yields nothing. Otherwise the whole-bucket noise is applied and then the batches are yielded. |
| Batching.IterateBatches | bin/neuronlp2/io/conllx_stacked_data.py:372-410 | The walk yields the buckets in the given (or natural) order and the records in each bucket's (or natural) order. Both orders are permutations. |
| Batching.WalkTexts | bin/neuronlp2/io/conllx_stacked_data.py:398-410 | Every batch of the walk carries, as lists in row order, the sentence and the comments of each of its records. |
| Batching.SelectAsWritten | bin/neuronlp2/io/conllx_stacked_data.py:398-410 | As written: without shuffle the slice gives the sub-list of texts; with shuffle, a one-record batch gives a bare entry and a longer batch raises a TypeError. |
| Batching.SlicedSelectionAgrees | bin/neuronlp2/io/conllx_stacked_data.py:400-410 | Without shuffle, the slice as written gives exactly the texts of the modelled batch. |
| Batching.ShuffledSelectionFails | bin/neuronlp2/io/conllx_stacked_data.py:395-410 | A bucket with sentences "a" and "b", batch size 2 and permutation [1, 0] raises a TypeError as written, where the batch's sentences are ["b", "a"]. |
| Batching.EveryRecordOnce | bin/neuronlp2/io/conllx_stacked_data.py:372-410 | The walk yields every record of every bucket exactly once and nothing else. |
| Batching.WalkSizes | bin/neuronlp2/io/conllx_stacked_data.py:379-402 | Every batch of the walk comes from a non-empty bucket and holds 1 to batchSize records. |
| Batching.PackRowShaped | bin/neuronlp2/io/conllx_stacked_data.py:201-208 | A packed row's word ids and singleton flags span the bucket's widths, and the flags are 0 or 1. |
| Batching.PackedDataIsWellFormed | bin/neuronlp2/io/conllx_stacked_data.py:316-319 | The packer's output fits the shape the samplers read: every non-empty bucket is packed with one row per record. |

## Left out

**Outside the model:**
- Reading the corpus. This covers `CoNLLXReader`, the alphabets and `print`. The readers
  and their file I/O are not part of this model; each sentence arrives as an `Instance`,
  or `None` for one the reader rejects.
- `read_stacked_data`. It repeats the bucketing of the list variant for a file.
- Tensor conversion and device placement (`torch.from_numpy`, `.to(device)`). Line 353
  uses a name `device` that `get_batch_stacked_variable` never defines. The model has no
  device, so this failure is not represented.
- Floating point. The bucket scale uses integer prefix sums. The masks are 0/1 integers.
  The noise probability enters only through its effect on the given 0/1 grid; `None`
  stands for probability 0.

**Tuple and shape details:**
- The placeholder `(1, 1)` for an empty bucket is the constructor `Placeholder`.
- The packed arrays are an array of rows, one `PackedRow` per record. They are not one
  numpy array per field.
- A row is built as a value by the padding functions. The slice writes within a row are
  not modelled one by one.

**Bucketing assumptions:**
- `Bucketing.Size`: a record's size is the number of entries of its word-id list.
- The reader's surface words and character sequences are identified with their id
  structures.
- A record's comments are a sequence of strings.

**Preconditions where the source fails.** These inputs raise an error in the source; the
model states them as preconditions instead:
- `max` of an empty list (lines 173 and 178);
- a lemma or character list wider than the clamped width (`Packable`);
- a packed record that is not a rooted tree and whose root has children. The decoder
  slice writes from line 263 on take a walk of exactly 2n-1 steps, or a walk of one step,
  which numpy broadcasts. Such a record's walk has neither length. `Packable` asks for a
  rooted head array, which gives 2n-1 steps;
- a zero total (float division by zero at line 328);
- a batch size of 0 in the walk (`range` with step 0 at line 398).

**Preconditions where the source goes on.** On these inputs the source does not fail
where the model stops:
- `InRange` (required by `StackInputs.GenerateStackInputs` under every order, and by the
  left-to-right, right-to-left and depth builders). Those builders index `child_ids` by a
  head value: a head at least the array's length raises an IndexError at line 18, and a
  negative head counts from the end of `child_ids` there, so nothing fails. The
  inside-out builder (lines 31-42) only compares `heads[child] == head`. It accepts any
  head value and lists a node with an out-of-range head nowhere; `ChildOrder.InsideOut`
  has no such precondition. Under `inside_out`, then, the precondition of
  `GenerateStackInputs` (and so of `Bucketing.ReadStackedDataList`) excludes arrays with a
  too-large or negative head, on which the source carries on.
- `Rooted` for the depth orders (`StackInputs.NeedsTree`): `calc_depth(0)` at lines
  44-59 follows child lists from the root only, so a node off the tree keeps an empty
  list and nothing fails. Such a record fails later, at the decoder slice writes from
  line 263, because its walk is shorter than 2n-1 steps. The one exception is a root with
  no children (heads [0, 1], say), which the next item covers.
- `Rooted` in `Packing.Packable`, for a record whose root has no children and n ≥ 2: its
  walk is the one step that closes the root. Lines 263-275 broadcast that step over all
  2n-1 decoder cells, so the source packs the record without an error. It gets
  `lengths_d` = 2n-1 and a decoder mask of 1 throughout. Every cell of its decoder lists
  is 0, except the stacked types, which hold the pad tag.

**Source behaviour worth knowing:**
- Line 336 unpacks the chosen bucket's four-part tuple into three names, which raises a
  ValueError on every call. `Batching.GetBatch` models the intended selection; the
  behaviour as written is under "## Findings".
- The second `elif prior_order == 'left2right'` at lines 73-74 can never be taken. It is
  not modelled.
- Lines 406 and 410 index the lists of sentences and comments with the excerpt. With
  shuffle on, the excerpt is an index tensor, and that indexing fails for batches of two
  or more records. `Batching.IterateBatches` yields the intended lists; the behaviour as
  written is under "## Findings".
- `StackTrace` does not model the destructive `pop(0)` on the child lists. The walk reads
  the next untaken child through a cursor per head. The lists the caller passed are never
  observed afterwards.

**Weaker contracts:**
- `StackInputs.StackTrace`: the step count 2n-1, and that each head takes its whole list,
  are stated only for rooted trees with a complete index. For other arrays the walk
  covers only the nodes below the root, and the model does not state its length.
- `ChildOrder.InsideOutComplete`: this needs an array with no self-headed node. The
  inside-out builder leaves a self-headed node out of its own list, while left-to-right
  lists it there.
- `Packing.Packable`: it asks for at most `|wordIds[w]|` tag and character lists per word.
  The packer itself only needs them within the lemma width.
- `Batching.IterateBatches`: the model yields a finished sequence of batches, not a lazy
  generator.

## Findings

| source | as written | input that shows it | evidently intended | confidence | as-written member | corrected member |
|---|---|---|---|---|---|---|
| bin/neuronlp2/io/conllx_stacked_data.py:395-410 | With shuffle on, `excerpt` is an index tensor. `data_sentences[excerpt]` and `data_comments[excerpt]` index plain lists with it: a one-entry tensor becomes a plain index and gives a bare entry, a longer one raises a TypeError. | A bucket with sentences "a" and "b", batch size 2, shuffle on, permutation [1, 0] (`Batching.ShuffledSelectionFails`). | The batch's sentences and comments as lists in the batch's order, as the unshuffled slice gives them. | not executed | Batching.SelectAsWritten | Batching.WalkTexts |
| bin/neuronlp2/io/conllx_stacked_data.py:336 | `data_encoder, data_decoder, _ = data_variable[bucket_id]` binds three names. The tuple stored for a non-empty bucket (lines 316-318) has four parts: encoder, decoder, sentences and comments. The unpacking raises a ValueError on every call, so `get_batch_stacked_variable` never returns a batch. | Any draw: the chosen bucket is never empty, so its tuple has four parts (`Batching.GetBatchUnpackFails`). | Bind the encoder and decoder parts of the chosen bucket and ignore its texts, then select the batch from them. | not executed | Batching.UnpackAsWritten | Batching.GetBatch |
