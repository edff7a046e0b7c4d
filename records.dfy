/**
 The records the pipeline moves around (classifier.py:133-138): an input
 example and the result dict that carries its label, together with the
 grouping of results by label that the Counter, the per-category files and
 the quality check all rely on.
 */
module Records {
  import opened Categories

  /** One instruction of the input dataset. */
  datatype Example = Example(instruction: string, input: string, output: string)

  /** A result dict: the example's three fields, copied, and the label it was given. */
  datatype Classified = Classified(instruction: string, input: string, output: string, category: string)

  /** The records labelled c, in the order they occur. */
  function Bucket(rs: seq<Classified>, c: string): (b: seq<Classified>)
    ensures |b| <= |rs|
    ensures forall k :: 0 <= k < |b| ==> b[k].category == c
  {
    if rs == [] then []
    else Bucket(rs[..|rs| - 1], c) + (if rs[|rs| - 1].category == c then [rs[|rs| - 1]] else [])
  }

  /** A record added at the end goes to the end of its own bucket and leaves the other buckets alone. */
  lemma BucketAppend(rs: seq<Classified>, x: Classified, c: string)
    ensures Bucket(rs + [x], c) == Bucket(rs, c) + (if x.category == c then [x] else [])
  {
    assert (rs + [x])[..|rs|] == rs;
  }

  /** Each key of m holds the bucket of its name. */
  predicate Grouped(m: map<string, seq<Classified>>, rs: seq<Classified>) {
    forall c :: c in m ==> m[c] == Bucket(rs, c)
  }

  /** Appending a record to the list of its own label keeps a grouping a grouping of the longer sequence. */
  lemma GroupedAppend(m: map<string, seq<Classified>>, rs: seq<Classified>, x: Classified)
    requires Grouped(m, rs) && x.category in m
    ensures Grouped(m[x.category := m[x.category] + [x]], rs + [x])
  {
    forall c | c in m {
      BucketAppend(rs, x, c);
    }
  }

  /**
   Grouping keeps relative order: the bucket of a concatenation is the
   bucket of the first part followed by the bucket of the second.
   */
  lemma {:induction false} BucketConcat(a: seq<Classified>, b: seq<Classified>, c: string)
    ensures Bucket(a + b, c) == Bucket(a, c) + Bucket(b, c)
    decreases |b|
  {
    if b == [] {
      assert a + b == a;
    } else {
      var b' := b[..|b| - 1];
      var x := b[|b| - 1];
      assert b == b' + [x];
      assert a + b == (a + b') + [x];
      BucketConcat(a, b', c);
      BucketAppend(a + b', x, c);
      BucketAppend(b', x, c);
    }
  }

  /** A record is in the bucket of c exactly when it is one of the records and is labelled c. */
  lemma {:induction false} BucketMembers(rs: seq<Classified>, c: string, x: Classified)
    ensures x in Bucket(rs, c) <==> x in rs && x.category == c
    decreases |rs|
  {
    if rs != [] {
      var rs' := rs[..|rs| - 1];
      assert rs == rs' + [rs[|rs| - 1]];
      BucketMembers(rs', c, x);
    }
  }

  /** How often c is listed in cats. */
  function Hits(cats: seq<string>, c: string): (n: nat)
    ensures n <= |cats|
    ensures n > 0 <==> c in cats
  {
    if cats == [] then 0
    else Hits(cats[..|cats| - 1], c) + (if cats[|cats| - 1] == c then 1 else 0)
  }

  /** A name listed once is hit once. */
  lemma {:induction false} HitsDistinct(cats: seq<string>, c: string)
    requires Distinct(cats) && c in cats
    ensures Hits(cats, c) == 1
    decreases |cats|
  {
    var cats' := cats[..|cats| - 1];
    assert cats == cats' + [cats[|cats| - 1]];
    if cats[|cats| - 1] == c {
      assert c !in cats' by {
        forall i | 0 <= i < |cats'| ensures cats'[i] != c {
          assert cats[i] == cats'[i];
        }
      }
    } else {
      HitsDistinct(cats', c);
    }
  }

  /** The total size of the buckets of the names in cats. */
  function SumBuckets(rs: seq<Classified>, cats: seq<string>): nat
  {
    if cats == [] then 0
    else SumBuckets(rs, cats[..|cats| - 1]) + |Bucket(rs, cats[|cats| - 1])|
  }

  /** One more record adds one to the total for every time its label is listed. */
  lemma {:induction false} SumBucketsAppend(rs: seq<Classified>, x: Classified, cats: seq<string>)
    ensures SumBuckets(rs + [x], cats) == SumBuckets(rs, cats) + Hits(cats, x.category)
    decreases |cats|
  {
    if cats != [] {
      SumBucketsAppend(rs, x, cats[..|cats| - 1]);
      BucketAppend(rs, x, cats[|cats| - 1]);
    }
  }

  /**
   When every record's label is among distinct names, the buckets of those
   names hold every record once: their sizes add up to the number of records.
   */
  lemma {:induction false} BucketsCoverAll(rs: seq<Classified>, cats: seq<string>)
    requires Distinct(cats)
    requires forall i :: 0 <= i < |rs| ==> rs[i].category in cats
    ensures SumBuckets(rs, cats) == |rs|
    decreases |rs|
  {
    if rs == [] {
      EmptyBuckets(cats);
    } else {
      var rs' := rs[..|rs| - 1];
      var x := rs[|rs| - 1];
      assert rs == rs' + [x];
      BucketsCoverAll(rs', cats);
      SumBucketsAppend(rs', x, cats);
      HitsDistinct(cats, x.category);
    }
  }

  lemma {:induction false} EmptyBuckets(cats: seq<string>)
    ensures SumBuckets([], cats) == 0
    decreases |cats|
  {
    if cats != [] {
      EmptyBuckets(cats[..|cats| - 1]);
    }
  }
}
