/**
 Splitting the results into one file per category (classifier.py:159-166)
 and the quality report over a results file (classifier.py:200-228): the
 share of fallback labels and the list of categories nobody was given.
 */
module Partition {
  import opened Wrappers
  import opened Categories
  import opened Records

  /** The contents of one alpaca_<category>.json file. */
  datatype CategoryFile = CategoryFile(category: string, records: seq<Classified>)

  /**
   The files written for the names in cats, in that order: one per name
   whose bucket is not empty, holding exactly that bucket.
   */
  function CategoryFiles(rs: seq<Classified>, cats: seq<string>): (files: seq<CategoryFile>)
    ensures |files| <= |cats|
    ensures forall k :: 0 <= k < |files| ==>
      files[k].category in cats && |files[k].records| > 0 && files[k].records == Bucket(rs, files[k].category)
  {
    if cats == [] then []
    else
      var c := cats[|cats| - 1];
      CategoryFiles(rs, cats[..|cats| - 1]) + (if |Bucket(rs, c)| > 0 then [CategoryFile(c, Bucket(rs, c))] else [])
  }

  /** The names of a list of files, in order. */
  function FileNames(files: seq<CategoryFile>): (names: seq<string>)
    ensures |names| == |files|
    ensures forall k :: 0 <= k < |files| ==> names[k] == files[k].category
  {
    seq(|files|, k requires 0 <= k < |files| => files[k].category)
  }

  /** A file is written for c exactly when c is one of the names and some record is labelled c. */
  lemma {:induction false} CategoryFilesNamed(rs: seq<Classified>, cats: seq<string>, c: string)
    ensures c in FileNames(CategoryFiles(rs, cats)) <==> c in cats && |Bucket(rs, c)| > 0
    decreases |cats|
  {
    if cats != [] {
      var cats' := cats[..|cats| - 1];
      var last := cats[|cats| - 1];
      assert cats == cats' + [last];
      assert c in cats <==> c in cats' || c == last;
      CategoryFilesNamed(rs, cats', c);
      var files' := CategoryFiles(rs, cats');
      var extra := if |Bucket(rs, last)| > 0 then [CategoryFile(last, Bucket(rs, last))] else [];
      assert CategoryFiles(rs, cats) == files' + extra;
      FileNamesAppend(files', extra);
      if |Bucket(rs, last)| > 0 {
        assert FileNames(extra) == [last];
      } else {
        assert FileNames(extra) == [];
      }
    }
  }

  lemma FileNamesAppend(files: seq<CategoryFile>, extra: seq<CategoryFile>)
    ensures FileNames(files + extra) == FileNames(files) + FileNames(extra)
  {
  }

  /** Over distinct names no name gets two files: the file names are distinct as well. */
  lemma {:induction false} FileNamesDistinct(rs: seq<Classified>, cats: seq<string>)
    requires Distinct(cats)
    ensures Distinct(FileNames(CategoryFiles(rs, cats)))
    decreases |cats|
  {
    if cats != [] {
      var cats' := cats[..|cats| - 1];
      var last := cats[|cats| - 1];
      assert Distinct(cats');
      FileNamesDistinct(rs, cats');
      var files' := CategoryFiles(rs, cats');
      var extra := if |Bucket(rs, last)| > 0 then [CategoryFile(last, Bucket(rs, last))] else [];
      assert CategoryFiles(rs, cats) == files' + extra;
      FileNamesAppend(files', extra);
      if extra != [] {
        assert last !in cats' by {
          forall i | 0 <= i < |cats'| ensures cats'[i] != last {
            assert cats[i] == cats'[i];
          }
        }
        assert FileNames(extra) == [last];
        var names := FileNames(files');
        assert forall k :: 0 <= k < |names| ==> names[k] in cats';
      }
    }
  }

  /** The per-category files have distinct names: one file per category at most. */
  lemma CategoryFileNamesDistinct(rs: seq<Classified>)
    ensures Distinct(FileNames(CategoryFiles(rs, CATEGORIES)))
  {
    CategoriesDistinct();
    FileNamesDistinct(rs, CATEGORIES);
  }

  /** How many records the files hold together. */
  function TotalRecords(files: seq<CategoryFile>): nat
  {
    if files == [] then 0 else TotalRecords(files[..|files| - 1]) + |files[|files| - 1].records|
  }

  lemma TotalRecordsAppend(files: seq<CategoryFile>, extra: seq<CategoryFile>)
    requires |extra| <= 1
    ensures TotalRecords(files + extra) == TotalRecords(files) + TotalRecords(extra)
  {
    if extra == [] {
      assert files + extra == files;
    } else {
      assert (files + extra)[..|files|] == files;
    }
  }

  /** Leaving out the empty buckets loses no record: the files hold as many records as the buckets. */
  lemma {:induction false} CategoryFilesTotal(rs: seq<Classified>, cats: seq<string>)
    ensures TotalRecords(CategoryFiles(rs, cats)) == SumBuckets(rs, cats)
    decreases |cats|
  {
    if cats != [] {
      var cats' := cats[..|cats| - 1];
      var last := cats[|cats| - 1];
      CategoryFilesTotal(rs, cats');
      var extra := if |Bucket(rs, last)| > 0 then [CategoryFile(last, Bucket(rs, last))] else [];
      TotalRecordsAppend(CategoryFiles(rs, cats'), extra);
      assert TotalRecords(extra) == |Bucket(rs, last)| by {
        if extra != [] {
          assert extra[..0] == [];
        }
      }
    }
  }

  /**
   When every result carries one of a list of distinct names, the files for
   those names hold every result exactly once between them.
   */
  lemma FilesCoverAll(rs: seq<Classified>, cats: seq<string>)
    requires Distinct(cats)
    requires forall i :: 0 <= i < |rs| ==> rs[i].category in cats
    ensures TotalRecords(CategoryFiles(rs, cats)) == |rs|
  {
    BucketsCoverAll(rs, cats);
    CategoryFilesTotal(rs, cats);
  }

  /** Results labelled by the normaliser are all written out, each once. */
  lemma CategoryFilesCoverAll(rs: seq<Classified>)
    requires forall i :: 0 <= i < |rs| ==> IsCategory(rs[i].category)
    ensures TotalRecords(CategoryFiles(rs, CATEGORIES)) == |rs|
  {
    CategoriesDistinct();
    FilesCoverAll(rs, CATEGORIES);
  }

  /**
   The partition: a dict with an empty list for every category, filled in
   result order, then one file per non-empty list in dict order, which is
   the order of CATEGORIES. A result whose label is not a key raises
   KeyError before any file is written; that is the None outcome.
   */
  method PartitionByCategory(results: seq<Classified>) returns (files: Option<seq<CategoryFile>>)
    ensures files.None? <==> exists i :: 0 <= i < |results| && !IsCategory(results[i].category)
    ensures files.Some? ==> files.value == CategoryFiles(results, CATEGORIES)
  {
    var categorized := FillCategories(results, CATEGORIES);
    if categorized.None? {
      return None;
    }
    var written := NonEmptyFiles(results, categorized.value, CATEGORIES);
    return Some(written);
  }

  /**
   The filling loop of the partition: the dict starts with an empty list for
   each key, and each result is appended to the list of its category.
   */
  method FillCategories(results: seq<Classified>, keys: seq<string>) returns (categorized: Option<map<string, seq<Classified>>>)
    ensures categorized.None? <==> exists i :: 0 <= i < |results| && results[i].category !in keys
    ensures categorized.Some? ==> forall c :: c in keys ==> c in categorized.value
    ensures categorized.Some? ==> Grouped(categorized.value, results)
  {
    var buckets: map<string, seq<Classified>> := map c | c in keys :: [];
    for i := 0 to |results|
      invariant forall c :: c in buckets <==> c in keys
      invariant Grouped(buckets, results[..i])
      invariant forall j :: 0 <= j < i ==> results[j].category in keys
    {
      var item := results[i];
      if item.category !in buckets {
        return None;
      }
      GroupedAppend(buckets, results[..i], item);
      assert results[..i + 1] == results[..i] + [item];
      buckets := buckets[item.category := buckets[item.category] + [item]];
    }
    assert results[..|results|] == results;
    return Some(buckets);
  }

  /** The writing loop of the partition: one file per key whose list is not empty, in key order. */
  method NonEmptyFiles(results: seq<Classified>, categorized: map<string, seq<Classified>>, keys: seq<string>)
    returns (files: seq<CategoryFile>)
    requires forall c :: c in keys ==> c in categorized
    requires Grouped(categorized, results)
    ensures files == CategoryFiles(results, keys)
  {
    files := [];
    for k := 0 to |keys|
      invariant files == CategoryFiles(results, keys[..k])
    {
      var category := keys[k];
      var items := categorized[category];
      assert keys[..k + 1][..k] == keys[..k];
      if |items| > 0 {
        files := files + [CategoryFile(category, items)];
      }
    }
    assert keys[..|keys|] == keys;
  }

  /**
   The by_category grouping of the quality check: a key appears when its
   first record is seen, and each key's list holds its records in order.
   */
  method GroupByCategory(data: seq<Classified>) returns (byCategory: map<string, seq<Classified>>)
    ensures forall c :: c in byCategory <==> |Bucket(data, c)| > 0
    ensures forall c :: c in byCategory ==> byCategory[c] == Bucket(data, c)
  {
    byCategory := map[];
    for i := 0 to |data|
      invariant forall c :: c in byCategory <==> |Bucket(data[..i], c)| > 0
      invariant forall c :: c in byCategory ==> byCategory[c] == Bucket(data[..i], c)
    {
      var item := data[i];
      assert data[..i + 1] == data[..i] + [item];
      forall c ensures Bucket(data[..i + 1], c) == Bucket(data[..i], c) + (if item.category == c then [item] else []) {
        BucketAppend(data[..i], item, c);
      }
      if item.category !in byCategory {
        byCategory := byCategory[item.category := []];
      }
      byCategory := byCategory[item.category := byCategory[item.category] + [item]];
    }
    assert data[..|data|] == data;
  }

  /** The empty_cats comprehension: the names in cats that are no key of the grouping or have an empty list, in order. */
  function EmptyCats(byCategory: map<string, seq<Classified>>, cats: seq<string>): (empty: seq<string>)
    ensures forall c :: c in empty <==> c in cats && (c !in byCategory || |byCategory[c]| == 0)
  {
    if cats == [] then []
    else
      var c := cats[|cats| - 1];
      EmptyCats(byCategory, cats[..|cats| - 1]) + (if c !in byCategory || |byCategory[c]| == 0 then [c] else [])
  }

  /** The names in cats that no record is labelled with, in order. */
  function Unused(rs: seq<Classified>, cats: seq<string>): (unused: seq<string>)
    ensures |unused| <= |cats|
    ensures forall c :: c in unused <==> c in cats && |Bucket(rs, c)| == 0
  {
    if cats == [] then []
    else
      var c := cats[|cats| - 1];
      Unused(rs, cats[..|cats| - 1]) + (if |Bucket(rs, c)| == 0 then [c] else [])
  }

  /** Over a grouping of the records, the comprehension lists exactly the unused names, in the same order. */
  lemma {:induction false} EmptyCatsOfGrouping(byCategory: map<string, seq<Classified>>, rs: seq<Classified>, cats: seq<string>)
    requires forall c :: c in byCategory <==> |Bucket(rs, c)| > 0
    requires forall c :: c in byCategory ==> byCategory[c] == Bucket(rs, c)
    ensures EmptyCats(byCategory, cats) == Unused(rs, cats)
    decreases |cats|
  {
    if cats != [] {
      EmptyCatsOfGrouping(byCategory, rs, cats[..|cats| - 1]);
    }
  }

  /**
   Every category is either written to a file or reported empty, never
   both: the file names and the empty list split the categories between them.
   */
  lemma FilesAndEmptySplitCategories(rs: seq<Classified>, c: string)
    requires c in CATEGORIES
    ensures c in FileNames(CategoryFiles(rs, CATEGORIES)) <==> c !in Unused(rs, CATEGORIES)
  {
    CategoryFilesNamed(rs, CATEGORIES, c);
  }

  /** What the quality check reports: the number of fallback labels and the empty categories. */
  datatype Quality = Quality(otherCount: nat, emptyCategories: seq<string>)

  /**
   The quality check over a loaded results file. The share of fallback
   labels divides by the number of records, so an empty file raises
   ZeroDivisionError before anything else is reported: that is the None
   outcome.
   */
  method CheckQuality(data: seq<Classified>) returns (report: Option<Quality>)
    ensures report.None? <==> data == []
    ensures report.Some? ==> report.value.otherCount == |Bucket(data, Other)|
    ensures report.Some? ==> report.value.emptyCategories == Unused(data, CATEGORIES)
  {
    var otherCount := |Bucket(data, Other)|;
    if |data| == 0 {
      return None;
    }
    var byCategory := GroupByCategory(data);
    var emptyCats := EmptyCats(byCategory, CATEGORIES);
    EmptyCatsOfGrouping(byCategory, data, CATEGORIES);
    return Some(Quality(otherCount, emptyCats));
  }
}
