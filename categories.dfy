/**
 The closed vocabulary of subject labels (classifier.py:9-31). The order of
 the list matters: the per-category files and the list of empty categories
 both follow it.

 The list is spelled out as an indexed table and assembled by a recursive
 function, so that the verifier looks at the individual names only where a
 proof asks for them.
 */
module Categories {

  /** How many categories there are. */
  const CategoryCount: nat := 21

  /** The category at position i of the declaration; position 20, the last, is the fallback. */
  function CategoryName(i: nat): (name: string)
    ensures name == Other <==> i >= CategoryCount - 1
  {
    match i
    case 0 => "history"
    case 1 => "science"
    case 2 => "mathematics"
    case 3 => "literature"
    case 4 => "technology"
    case 5 => "business"
    case 6 => "health_medicine"
    case 7 => "geography"
    case 8 => "arts"
    case 9 => "sports"
    case 10 => "law"
    case 11 => "psychology"
    case 12 => "philosophy"
    case 13 => "education"
    case 14 => "cooking_food"
    case 15 => "travel"
    case 16 => "entertainment"
    case 17 => "language"
    case 18 => "general_knowledge"
    case 19 => "creative_writing"
    case _ => "other"
  }

  /** The subject categories, in declaration order; "other" is the fallback. */
  const CATEGORIES: seq<string> := DeclaredNames()

  function DeclaredNames(): (names: seq<string>)
    ensures |names| == CategoryCount
    ensures forall i :: 0 <= i < CategoryCount ==> names[i] == CategoryName(i)
  {
    seq(CategoryCount, (i: int) requires 0 <= i => CategoryName(i))
  }

  /** The fallback label, used when a response cannot be resolved. */
  const Other: string := "other"

  predicate IsCategory(s: string) {
    s in CATEGORIES
  }

  predicate Distinct<T(==)>(s: seq<T>) {
    forall i, j :: 0 <= i < j < |s| ==> s[i] != s[j]
  }

  /** The fallback is itself a category, the last one, so no record ever lands outside the vocabulary. */
  lemma OtherIsCategory()
    ensures IsCategory(Other)
    ensures CATEGORIES[|CATEGORIES| - 1] == Other
  {
    assert CATEGORIES[20] == CategoryName(20) == Other;
  }

  /** "history" is the first category. */
  lemma HistoryIsCategory()
    ensures IsCategory("history")
  {
    assert CATEGORIES[0] == "history";
  }

  /** Two names at different positions of the table differ. */
  lemma NamesDiffer(i: nat, j: nat)
    requires i < j < CategoryCount
    ensures CategoryName(i) != CategoryName(j)
  {
    if i < 10 {
      EarlyNameDiffers(i, j);
    } else {
      LateNameDiffers(i, j);
    }
  }

  lemma EarlyNameDiffers(i: nat, j: nat)
    requires i < 10 && i < j < CategoryCount
    ensures CategoryName(i) != CategoryName(j)
  {
    if i < 5 {
      FirstNamesDiffer(i, j);
    } else {
      SecondNamesDiffer(i, j);
    }
  }

  lemma FirstNamesDiffer(i: nat, j: nat)
    requires i < 5 && i < j < CategoryCount
    ensures CategoryName(i) != CategoryName(j)
  {
    var a, b := CategoryName(i), CategoryName(j);
    assert |a| != |b| || a[0] != b[0];
  }

  lemma SecondNamesDiffer(i: nat, j: nat)
    requires 5 <= i < 10 && i < j < CategoryCount
    ensures CategoryName(i) != CategoryName(j)
  {
    var a, b := CategoryName(i), CategoryName(j);
    assert |a| != |b| || a[0] != b[0];
  }

  /** "psychology" and "philosophy" agree in length and first letter, so names 10 to 12 are also told apart by the second letter. */
  lemma LateNameDiffers(i: nat, j: nat)
    requires 10 <= i < j < CategoryCount
    ensures CategoryName(i) != CategoryName(j)
  {
    var a, b := CategoryName(i), CategoryName(j);
    if i < 13 {
      assert |a| != |b| || a[0] != b[0] || a[1] != b[1];
    } else {
      assert |a| != |b| || a[0] != b[0];
    }
  }

  /** No category is listed twice, so the dict keyed by CATEGORIES has one key per entry. */
  lemma CategoriesDistinct()
    ensures Distinct(CATEGORIES)
  {
    forall i, j | 0 <= i < j < |CATEGORIES| ensures CATEGORIES[i] != CATEGORIES[j] {
      NamesDiffer(i, j);
    }
  }

  /** Every category name is a single lower-case token: letters and underscores only. */
  predicate IsLabelChar(c: char) {
    ('a' <= c <= 'z') || c == '_'
  }

  /** A non-empty run of label characters. */
  predicate IsLabelWord(s: string) {
    |s| > 0 && forall k :: 0 <= k < |s| ==> IsLabelChar(s[k])
  }

  lemma NameIsLabelWord(i: nat)
    ensures IsLabelWord(CategoryName(i))
  {
    if i < 10 {
      EarlyNameIsLabelWord(i);
    } else {
      LateNameIsLabelWord(i);
    }
  }

  /** The empty branches only split the proof by name, which keeps each proof obligation small. */
  lemma EarlyNameIsLabelWord(i: nat)
    requires i < 10
    ensures IsLabelWord(CategoryName(i))
  {
    var c := CategoryName(i);
    forall k | 0 <= k < |c| ensures IsLabelChar(c[k]) {
      if i < 3 {
      } else if i < 6 {
      } else {
      }
    }
  }

  lemma LateNameIsLabelWord(i: nat)
    requires i >= 10
    ensures IsLabelWord(CategoryName(i))
  {
    if i < 15 {
      MiddleNameIsLabelWord(i);
    } else {
      LastNameIsLabelWord(i);
    }
  }

  /** As for EarlyNameIsLabelWord, the empty branches only keep each proof obligation small. */
  lemma MiddleNameIsLabelWord(i: nat)
    requires 10 <= i < 15
    ensures IsLabelWord(CategoryName(i))
  {
    var c := CategoryName(i);
    forall k | 0 <= k < |c| ensures IsLabelChar(c[k]) {
      if i < 12 {
      } else {
      }
    }
  }

  /** As for EarlyNameIsLabelWord, the empty branches only keep each proof obligation small. */
  lemma LastNameIsLabelWord(i: nat)
    requires i >= 15
    ensures IsLabelWord(CategoryName(i))
  {
    var c := CategoryName(i);
    forall k | 0 <= k < |c| ensures IsLabelChar(c[k]) {
      if i < 18 {
      } else {
      }
    }
  }

  lemma CategoriesAreLowerWords()
    ensures forall c :: c in CATEGORIES ==> IsLabelWord(c)
  {
    forall i | 0 <= i < |CATEGORIES| ensures IsLabelWord(CATEGORIES[i]) {
      NameIsLabelWord(i);
    }
  }
}
