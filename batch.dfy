/**
 The batch run over the whole dataset (classifier.py:75-169): every example
 goes through the retry loop, its result is appended in input order, the
 Counter of labels and the failure count are kept up to date, a checkpoint
 of everything so far is written every 500 records, and at the end the
 results are split into one file per category.

 The endpoint is given as one sequence of attempt outcomes per example;
 the files are values, and the checkpoints a ghost log.
 */
module Batch {
  import opened Categories
  import opened Retry
  import opened Records
  import opened Partition

  /** A checkpoint is written after every this many records. */
  const CheckpointInterval: nat := 500

  /** One checkpoint file: the number of records so far, and those records. */
  datatype Checkpoint = Checkpoint(count: nat, records: seq<Classified>)

  /** Every example has an answer script long enough for the whole retry schedule. */
  predicate Answerable(dataset: seq<Example>, responses: seq<seq<Outcome>>) {
    |responses| == |dataset| && forall i :: 0 <= i < |responses| ==> |responses[i]| >= MaxRetries
  }

  /**
   The result dict of one example: its instruction, input and output copied
   unchanged, and the label the retry loop settles on.
   */
  function Label(example: Example, outcomes: seq<Outcome>): (r: Classified)
    requires |outcomes| >= MaxRetries
    ensures IsCategory(r.category)
    ensures r.instruction == example.instruction && r.input == example.input && r.output == example.output
  {
    Classified(example.instruction, example.input, example.output, Resolve(outcomes).category)
  }

  /** All three attempts of this record failed. */
  predicate Exhausts(outcomes: seq<Outcome>) {
    |outcomes| >= MaxRetries && AllFailed(outcomes, MaxRetries)
  }

  /** How many records had all three attempts fail. */
  function Exhausted(responses: seq<seq<Outcome>>): (n: nat)
    ensures n <= |responses|
  {
    if responses == [] then 0
    else Exhausted(responses[..|responses| - 1]) + (if Exhausts(responses[|responses| - 1]) then 1 else 0)
  }

  /** A Counter lookup: a label never counted counts as zero. */
  function Count(counts: map<string, nat>, c: string): (n: nat)
    ensures c !in counts ==> n == 0
    ensures c in counts ==> n == counts[c]
  {
    if c in counts then counts[c] else 0
  }

  /**
   The Counter agrees with the records: its keys are the labels that occur,
   and each key counts the records carrying it.
   */
  ghost predicate Tallies(counts: map<string, nat>, rs: seq<Classified>) {
    (forall c :: c in counts <==> |Bucket(rs, c)| > 0) &&
    (forall c :: c in counts ==> counts[c] == |Bucket(rs, c)|)
  }

  /** Counting one more record keeps the Counter in step with the records. */
  lemma TalliesAppend(counts: map<string, nat>, rs: seq<Classified>, x: Classified)
    requires Tallies(counts, rs)
    ensures Tallies(counts[x.category := Count(counts, x.category) + 1], rs + [x])
  {
    forall c {
      BucketAppend(rs, x, c);
    }
  }

  /** The sum of the counts of the names in cats. */
  function SumCounts(counts: map<string, nat>, cats: seq<string>): nat {
    if cats == [] then 0 else SumCounts(counts, cats[..|cats| - 1]) + Count(counts, cats[|cats| - 1])
  }

  lemma {:induction false} SumCountsOfTallies(counts: map<string, nat>, rs: seq<Classified>, cats: seq<string>)
    requires Tallies(counts, rs)
    ensures SumCounts(counts, cats) == SumBuckets(rs, cats)
    decreases |cats|
  {
    if cats != [] {
      SumCountsOfTallies(counts, rs, cats[..|cats| - 1]);
    }
  }

  /**
   Every counted label is a category, and the counts of the categories add
   up to the number of results: sum(category_counts.values()) == len(results).
   */
  lemma CounterTotal(counts: map<string, nat>, rs: seq<Classified>)
    requires Tallies(counts, rs)
    requires forall i :: 0 <= i < |rs| ==> IsCategory(rs[i].category)
    ensures forall c :: c in counts ==> IsCategory(c)
    ensures SumCounts(counts, CATEGORIES) == |rs|
  {
    forall c | c in counts ensures IsCategory(c) {
      var b := Bucket(rs, c);
      assert b[0] in b;
      BucketMembers(rs, c, b[0]);
    }
    SumCountsOfTallies(counts, rs, CATEGORIES);
    CategoriesDistinct();
    BucketsCoverAll(rs, CATEGORIES);
  }

  /** The checkpoints written over a run that produced rs: one after every 500th record, holding everything so far. */
  function CheckpointLog(rs: seq<Classified>): (log: seq<Checkpoint>)
    ensures |log| == |rs| / CheckpointInterval
  {
    if rs == [] then []
    else
      var n := |rs|;
      CheckpointLog(rs[..n - 1]) + (if n % CheckpointInterval == 0 then [Checkpoint(n, rs)] else [])
  }

  lemma CheckpointLogAppend(rs: seq<Classified>, x: Classified)
    ensures CheckpointLog(rs + [x]) ==
      CheckpointLog(rs) + (if (|rs| + 1) % CheckpointInterval == 0 then [Checkpoint(|rs| + 1, rs + [x])] else [])
  {
    assert (rs + [x])[..|rs|] == rs;
  }

  /** The j-th checkpoint is written after record 500 * (j + 1) and holds exactly the records up to it. */
  lemma {:induction false} CheckpointLogShape(rs: seq<Classified>, j: nat)
    requires j < |CheckpointLog(rs)|
    ensures CheckpointLog(rs)[j] == Checkpoint(CheckpointInterval * (j + 1), rs[..CheckpointInterval * (j + 1)])
    decreases |rs|
  {
    var n := |rs|;
    var rs' := rs[..n - 1];
    var log' := CheckpointLog(rs');
    if j < |log'| {
      CheckpointLogShape(rs', j);
      assert rs'[..CheckpointInterval * (j + 1)] == rs[..CheckpointInterval * (j + 1)];
    } else {
      assert n % CheckpointInterval == 0;
      assert rs[..n] == rs;
    }
  }

  /**
   A checkpoint is written after the n-th record exactly when n is a multiple
   of 500: the counts of the log are exactly those multiples up to the
   number of records.
   */
  lemma CheckpointExactly(rs: seq<Classified>, n: nat)
    requires 1 <= n <= |rs|
    ensures (exists j :: 0 <= j < |CheckpointLog(rs)| && CheckpointLog(rs)[j].count == n) <==> n % CheckpointInterval == 0
  {
    var log := CheckpointLog(rs);
    if n % CheckpointInterval == 0 {
      var j := n / CheckpointInterval - 1;
      DivMonotone(n, |rs|);
      CheckpointLogShape(rs, j);
      assert log[j].count == n;
    } else {
      forall j | 0 <= j < |log| ensures log[j].count != n {
        CheckpointLogShape(rs, j);
      }
    }
  }

  lemma DivMonotone(a: nat, b: nat)
    requires a <= b
    ensures a / CheckpointInterval <= b / CheckpointInterval
  {
  }

  /**
   The batch run: the classification loop, then the partition of its
   results into the per-category files. Every label is a category, so the
   partition always succeeds.
   */
  method ClassifyAlpacaDataset(dataset: seq<Example>, responses: seq<seq<Outcome>>)
    returns (results: seq<Classified>, counts: map<string, nat>, failedCount: nat,
             files: seq<CategoryFile>, ghost checkpoints: seq<Checkpoint>)
    requires Answerable(dataset, responses)
    ensures |results| == |dataset|
    ensures forall i :: 0 <= i < |results| ==> results[i] == Label(dataset[i], responses[i])
    ensures Tallies(counts, results)
    ensures failedCount == Exhausted(responses)
    ensures checkpoints == CheckpointLog(results)
    ensures files == CategoryFiles(results, CATEGORIES)
    ensures SumCounts(counts, CATEGORIES) == |results| && TotalRecords(files) == |results|
    ensures failedCount <= |Bucket(results, Other)|
  {
    results, counts, failedCount, checkpoints := ClassifyRecords(dataset, responses);
    var partitioned := PartitionByCategory(results);
    files := partitioned.value;
    CounterTotal(counts, results);
    CategoryFilesCoverAll(results);
    forall i | 0 <= i < |results| && Exhausts(responses[i]) ensures results[i].category == Other {
      ExhaustedIsOther(dataset[i], responses[i]);
    }
    FailuresAreFallbacks(responses, results);
  }

  /**
   The classification loop. Record i is classified with the retry loop over
   its own outcomes, appended to the results and counted, and followed by a
   checkpoint when i + 1 is a multiple of 500.
   */
  method ClassifyRecords(dataset: seq<Example>, responses: seq<seq<Outcome>>)
    returns (results: seq<Classified>, counts: map<string, nat>, failedCount: nat, ghost checkpoints: seq<Checkpoint>)
    requires Answerable(dataset, responses)
    ensures |results| == |dataset|
    ensures forall i :: 0 <= i < |results| ==> results[i] == Label(dataset[i], responses[i])
    ensures Tallies(counts, results)
    ensures failedCount == Exhausted(responses)
    ensures checkpoints == CheckpointLog(results)
  {
    results, counts, failedCount, checkpoints := [], map[], 0, [];
    for i := 0 to |dataset|
      invariant |results| == i
      invariant forall j :: 0 <= j < i ==> results[j] == Label(dataset[j], responses[j])
      invariant Tallies(counts, results)
      invariant failedCount == Exhausted(responses[..i])
      invariant checkpoints == CheckpointLog(results)
    {
      var item, failed := ClassifyExample(dataset[i], responses[i]);
      ExhaustedStep(responses, i);
      TalliesAppend(counts, results, item);
      CheckpointLogAppend(results, item);
      LabelsAppend(dataset, responses, results, item);
      results := results + [item];
      counts := counts[item.category := Count(counts, item.category) + 1];
      failedCount := failedCount + failed;
      if (i + 1) % CheckpointInterval == 0 {
        checkpoints := checkpoints + [Checkpoint(i + 1, results)];
      }
    }
    assert responses[..|dataset|] == responses;
  }

  /** A result appended in step is the label of the next example. */
  lemma LabelsAppend(dataset: seq<Example>, responses: seq<seq<Outcome>>, results: seq<Classified>, item: Classified)
    requires Answerable(dataset, responses) && |results| < |dataset|
    requires forall j :: 0 <= j < |results| ==> results[j] == Label(dataset[j], responses[j])
    requires item == Label(dataset[|results|], responses[|results|])
    ensures forall j :: 0 <= j < |results| + 1 ==> (results + [item])[j] == Label(dataset[j], responses[j])
  {
  }

  /**
   One pass of the loop body: the retry loop over the example's outcomes and
   the result dict built from it. The failure increment is one exactly when
   all three attempts failed.
   */
  method ClassifyExample(example: Example, outcomes: seq<Outcome>) returns (item: Classified, failed: nat)
    requires |outcomes| >= MaxRetries
    ensures item == Label(example, outcomes)
    ensures failed == if Exhausts(outcomes) then 1 else 0
  {
    var category, timeouts, failedHere := ClassifyWithRetry(outcomes);
    ResolveFailure(outcomes);
    item := Classified(example.instruction, example.input, example.output, category);
    failed := failedHere;
  }

  /** The failure count of the first i + 1 records adds record i's to that of the first i. */
  lemma ExhaustedStep(responses: seq<seq<Outcome>>, i: nat)
    requires i < |responses|
    ensures Exhausted(responses[..i + 1]) == Exhausted(responses[..i]) + (if Exhausts(responses[i]) then 1 else 0)
  {
    assert responses[..i + 1][..i] == responses[..i];
  }

  /** A record whose three attempts all fail gets the fallback label. */
  lemma ExhaustedIsOther(example: Example, outcomes: seq<Outcome>)
    requires Exhausts(outcomes)
    ensures Label(example, outcomes).category == Other
  {
    ResolveFailure(outcomes);
  }

  /** Every record counted as failed carries the fallback label, so there are at least as many of those. */
  lemma {:induction false} FailuresAreFallbacks(responses: seq<seq<Outcome>>, results: seq<Classified>)
    requires |results| == |responses|
    requires forall i :: 0 <= i < |results| && Exhausts(responses[i]) ==> results[i].category == Other
    ensures Exhausted(responses) <= |Bucket(results, Other)|
    decreases |results|
  {
    if results != [] {
      var n := |results| - 1;
      FailuresAreFallbacks(responses[..n], results[..n]);
      BucketAppend(results[..n], results[n], Other);
      assert results == results[..n] + [results[n]];
    }
  }
}
