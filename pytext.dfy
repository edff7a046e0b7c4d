/**
 The few Python string operations the label normaliser is built from, over
 ASCII text: str.isspace, str.strip(), str.lower(), str.replace(old, "") and
 str.split() with no separator.
 */
module PyText {

  /** str.isspace() on an ASCII character: space, \t \n \v \f \r and the separators \x1c-\x1f. */
  predicate IsSpace(c: char)
    ensures IsSpace(c) ==> c as int <= 0x20
  {
    c == ' ' || ('\t' <= c <= '\r') || ('\U{1C}' <= c <= '\U{1F}')
  }

  predicate AllSpace(s: string) {
    forall k :: 0 <= k < |s| ==> IsSpace(s[k])
  }

  /** A token of str.split(): non-empty and free of whitespace. */
  predicate IsWord(w: string) {
    |w| > 0 && forall k :: 0 <= k < |w| ==> !IsSpace(w[k])
  }

  predicate IsUpper(c: char) {
    'A' <= c <= 'Z'
  }

  /** str.lower() on one character: ASCII capitals map to small letters, everything else is kept. */
  function LowerChar(c: char): (r: char)
    ensures !IsUpper(r)
    ensures IsSpace(r) <==> IsSpace(c)
    ensures !IsUpper(c) ==> r == c
    ensures IsUpper(c) ==> r as int == c as int + 32
  {
    if IsUpper(c) then (c as int + 32) as char else c
  }

  /** str.lower(): same length, each capital turned into its small letter, everything else kept. */
  function Lower(s: string): (r: string)
    ensures |r| == |s|
    ensures forall k :: 0 <= k < |r| ==> !IsUpper(r[k]) && (IsSpace(r[k]) <==> IsSpace(s[k]))
    ensures forall k :: 0 <= k < |r| && !IsUpper(s[k]) ==> r[k] == s[k]
    ensures forall k :: 0 <= k < |r| && IsUpper(s[k]) ==> r[k] as int == s[k] as int + 32
  {
    seq(|s|, k requires 0 <= k < |s| => LowerChar(s[k]))
  }

  /** str.lower() is idempotent. */
  lemma LowerIdempotent(s: string)
    ensures Lower(Lower(s)) == Lower(s)
  {
  }

  /** str.lower() works character by character. */
  lemma LowerConcat(a: string, b: string)
    ensures Lower(a + b) == Lower(a) + Lower(b)
  {
  }

  /** The length of the run of whitespace that s starts with. */
  function LeadingSpaces(s: string): (n: nat)
    ensures n <= |s|
    ensures forall k :: 0 <= k < n ==> IsSpace(s[k])
    ensures n == |s| || !IsSpace(s[n])
    decreases |s|
  {
    if |s| > 0 && IsSpace(s[0]) then
      var n := 1 + LeadingSpaces(s[1..]);
      assert forall k :: 1 <= k < n ==> s[k] == s[1..][k - 1];
      n
    else 0
  }

  /** The length of the run of whitespace that s ends with. */
  function TrailingSpaces(s: string): (n: nat)
    ensures n <= |s|
    ensures forall k :: |s| - n <= k < |s| ==> IsSpace(s[k])
    ensures n == |s| || !IsSpace(s[|s| - n - 1])
    decreases |s|
  {
    if |s| > 0 && IsSpace(s[|s| - 1]) then 1 + TrailingSpaces(s[..|s| - 1]) else 0
  }

  /** The leading half of str.strip(): what is left once the leading whitespace is dropped. */
  function LStrip(s: string): (r: string)
    ensures |r| <= |s|
    ensures r == [] || !IsSpace(r[0])
    ensures r == [] <==> AllSpace(s)
  {
    s[LeadingSpaces(s)..]
  }

  /** The trailing half of str.strip(): what is left once the trailing whitespace is dropped. */
  function RStrip(s: string): (r: string)
    ensures |r| <= |s|
    ensures r == [] || !IsSpace(r[|r| - 1])
    ensures r == [] <==> AllSpace(s)
  {
    s[..|s| - TrailingSpaces(s)]
  }

  /** str.strip() with no argument. */
  function Strip(s: string): (r: string)
    ensures |r| <= |s|
    ensures r == [] <==> AllSpace(s)
    ensures r == [] || (!IsSpace(r[0]) && !IsSpace(r[|r| - 1]))
  {
    RStrip(LStrip(s))
  }

  /** Dropping the leading whitespace leaves a suffix of s, and only whitespace is dropped. */
  lemma LStripIsSuffix(s: string)
    ensures LStrip(s) == s[|s| - |LStrip(s)|..] && AllSpace(s[..|s| - |LStrip(s)|])
  {
  }

  /** Dropping the trailing whitespace leaves a prefix of s, and only whitespace is dropped. */
  lemma RStripIsPrefix(s: string)
    ensures RStrip(s) == s[..|RStrip(s)|] && AllSpace(s[|RStrip(s)|..])
  {
  }

  /** str.strip() removes whitespace from both ends and nothing else: the result is a slice of s with only whitespace around it. */
  lemma StripIsSlice(s: string)
    ensures exists a, b :: 0 <= a <= b <= |s| && Strip(s) == s[a..b] && AllSpace(s[..a]) && AllSpace(s[b..])
  {
    var t := LStrip(s);
    var r := RStrip(t);
    var a := |s| - |t|;
    assert s[a..a + |r|] == t[..|r|];
    assert s[a + |r|..] == t[|r|..];
    assert Strip(s) == s[a..a + |r|];
  }

  /** A string that neither starts nor ends with whitespace is left alone by str.strip(). */
  lemma StripTrimmed(s: string)
    requires s == [] || (!IsSpace(s[0]) && !IsSpace(s[|s| - 1]))
    ensures Strip(s) == s
  {
    if s != [] {
      assert LeadingSpaces(s) == 0;
      assert LStrip(s) == s;
      assert TrailingSpaces(s) == 0;
    }
  }

  /** str.strip() is idempotent. */
  lemma StripIdempotent(s: string)
    ensures Strip(Strip(s)) == Strip(s)
  {
    StripTrimmed(Strip(s));
  }

  /** Lowering keeps whitespace where it was, so the leading run is as long as before. */
  lemma {:induction false} LeadingSpacesLower(s: string)
    ensures LeadingSpaces(Lower(s)) == LeadingSpaces(s)
    decreases |s|
  {
    if |s| > 0 && IsSpace(s[0]) {
      assert Lower(s)[1..] == Lower(s[1..]);
      LeadingSpacesLower(s[1..]);
    }
  }

  lemma {:induction false} TrailingSpacesLower(s: string)
    ensures TrailingSpaces(Lower(s)) == TrailingSpaces(s)
    decreases |s|
  {
    if |s| > 0 && IsSpace(s[|s| - 1]) {
      assert Lower(s)[..|s| - 1] == Lower(s[..|s| - 1]);
      TrailingSpacesLower(s[..|s| - 1]);
    }
  }

  /** Lowering commutes with dropping leading whitespace. */
  lemma LStripLower(s: string)
    ensures LStrip(Lower(s)) == Lower(LStrip(s))
  {
    LeadingSpacesLower(s);
    var n := LeadingSpaces(s);
    assert Lower(s)[n..] == Lower(s[n..]);
  }

  /** Lowering commutes with dropping trailing whitespace. */
  lemma RStripLower(s: string)
    ensures RStrip(Lower(s)) == Lower(RStrip(s))
  {
    TrailingSpacesLower(s);
    var m := |s| - TrailingSpaces(s);
    assert Lower(s)[..m] == Lower(s[..m]);
  }

  /** str.strip() and str.lower() can be applied in either order. */
  lemma StripLower(s: string)
    ensures Strip(Lower(s)) == Lower(Strip(s))
  {
    LStripLower(s);
    RStripLower(LStrip(s));
  }

  /** Does `pat` occur in `s` starting at index i? */
  predicate OccursAt(s: string, pat: string, i: nat) {
    i + |pat| <= |s| && s[i..i + |pat|] == pat
  }

  /**
   s.replace(pat, ""): scanning from the left, every non-overlapping occurrence of
   `pat` is deleted; after a deletion the scan resumes just past the deleted text.
   */
  function RemoveAll(s: string, pat: string): (r: string)
    requires |pat| > 0
    ensures |r| <= |s|
    decreases |s|
  {
    if |s| < |pat| then s
    else if s[..|pat|] == pat then RemoveAll(s[|pat|..], pat)
    else [s[0]] + RemoveAll(s[1..], pat)
  }

  /** Text in which `pat` does not occur is returned unchanged. */
  lemma {:induction false} RemoveAllAbsent(s: string, pat: string)
    requires |pat| > 0
    requires forall i: nat :: !OccursAt(s, pat, i)
    ensures RemoveAll(s, pat) == s
    decreases |s|
  {
    if |s| >= |pat| {
      assert !OccursAt(s, pat, 0);
      assert s[..|pat|] != pat;
      forall i: nat ensures !OccursAt(s[1..], pat, i) {
        assert !OccursAt(s, pat, i + 1);
      }
      RemoveAllAbsent(s[1..], pat);
    }
  }

  /** A character of `pat` that never appears in `s` rules out every occurrence. */
  lemma MissingCharRulesOut(s: string, pat: string, j: nat)
    requires j < |pat|
    requires forall k :: 0 <= k < |s| ==> s[k] != pat[j]
    ensures forall i: nat :: !OccursAt(s, pat, i)
  {
    forall i: nat ensures !OccursAt(s, pat, i) {
      if i + |pat| <= |s| {
        assert s[i..i + |pat|][j] == s[i + j];
      }
    }
  }

  /** A leading occurrence is deleted and the scan goes on after it. */
  lemma RemoveAllLeading(pat: string, s: string)
    requires |pat| > 0
    ensures RemoveAll(pat + s, pat) == RemoveAll(s, pat)
  {
    assert (pat + s)[..|pat|] == pat;
    assert (pat + s)[|pat|..] == s;
  }

  /**
   Wherever the first occurrence is, the text before it is kept, the
   occurrence is deleted and the scan goes on after it: occurrences further
   in are deleted too, not only a leading one.
   */
  lemma RemoveAllFirst(s: string, pat: string, i: nat)
    requires |pat| > 0
    requires OccursAt(s, pat, i)
    requires forall j: nat :: j < i ==> !OccursAt(s, pat, j)
    ensures RemoveAll(s, pat) == s[..i] + RemoveAll(s[i + |pat|..], pat)
  {
    NoneBeforeOfForall(s, pat, i);
    RemoveAllKeepsPrefix(s, pat, i);
  }

  /** No occurrence of `pat` starts in s before position i. */
  predicate NoneBefore(s: string, pat: string, i: nat)
    decreases i
  {
    i == 0 || (|s| > 0 && !OccursAt(s, pat, 0) && NoneBefore(s[1..], pat, i - 1))
  }

  /** The quantified form of "no earlier occurrence" gives the recursive one. */
  lemma {:induction false} NoneBeforeOfForall(s: string, pat: string, i: nat)
    requires OccursAt(s, pat, i)
    requires forall j: nat :: j < i ==> !OccursAt(s, pat, j)
    ensures NoneBefore(s, pat, i)
    decreases i
  {
    if i > 0 {
      assert !OccursAt(s, pat, 0);
      OccursAtTail(s, pat, i - 1);
      forall j: nat | j < i - 1 ensures !OccursAt(s[1..], pat, j) {
        OccursAtTail(s, pat, j);
      }
      NoneBeforeOfForall(s[1..], pat, i - 1);
    }
  }

  /** The induction behind RemoveAllFirst, over the recursive form of its premise. */
  lemma {:induction false} RemoveAllKeepsPrefix(s: string, pat: string, i: nat)
    requires |pat| > 0
    requires OccursAt(s, pat, i)
    requires NoneBefore(s, pat, i)
    ensures RemoveAll(s, pat) == s[..i] + RemoveAll(s[i + |pat|..], pat)
    decreases i
  {
    if i == 0 {
      RemoveAllAtStart(s, pat);
    } else {
      OccursAtTail(s, pat, i - 1);
      RemoveAllKeepsPrefix(s[1..], pat, i - 1);
      RemoveAllFirstStep(s, pat, i);
    }
  }

  /** An occurrence at the very start is deleted and the scan goes on after it. */
  lemma RemoveAllAtStart(s: string, pat: string)
    requires |pat| > 0 && OccursAt(s, pat, 0)
    ensures RemoveAll(s, pat) == s[..0] + RemoveAll(s[|pat|..], pat)
  {
    assert s[..0] == [];
  }

  /** One step of RemoveAllKeepsPrefix: a first character that starts no occurrence is kept in front. */
  lemma RemoveAllFirstStep(s: string, pat: string, i: nat)
    requires |pat| > 0 && 0 < i && i + |pat| <= |s|
    requires !OccursAt(s, pat, 0)
    requires RemoveAll(s[1..], pat) == s[1..][..i - 1] + RemoveAll(s[1..][i - 1 + |pat|..], pat)
    ensures RemoveAll(s, pat) == s[..i] + RemoveAll(s[i + |pat|..], pat)
  {
    TailSlices(s, i, |pat|);
    RemoveAllStepTail(s, pat, i, RemoveAll(s[1..], pat), RemoveAll(s[i + |pat|..], pat));
  }

  /** RemoveAllFirstStep with the removal results held abstract. */
  lemma RemoveAllStepTail(s: string, pat: string, i: nat, tail: string, rest: string)
    requires |pat| > 0 && 0 < i && i + |pat| <= |s|
    requires !OccursAt(s, pat, 0)
    requires tail == RemoveAll(s[1..], pat)
    requires tail == s[1..][..i - 1] + rest
    ensures RemoveAll(s, pat) == s[..i] + rest
  {
    RemoveAllSkip(s, pat);
    TailSlices(s, i, |pat|);
    assert [s[0]] + (s[1..][..i - 1] + rest) == ([s[0]] + s[1..][..i - 1]) + rest;
  }

  /** Slices of the tail of s, read back as slices of s. */
  lemma TailSlices(s: string, i: nat, m: nat)
    requires 0 < i && i + m <= |s|
    ensures s[1..][i - 1 + m..] == s[i + m..]
    ensures [s[0]] + s[1..][..i - 1] == s[..i]
  {
  }

  /** Text that does not start with the pattern keeps its first character, and the scan goes on after it. */
  lemma RemoveAllSkip(s: string, pat: string)
    requires |pat| > 0 && |s| > |pat|
    requires !OccursAt(s, pat, 0)
    ensures RemoveAll(s, pat) == [s[0]] + RemoveAll(s[1..], pat)
  {
  }

  /** An occurrence in the tail is an occurrence one place further in the whole text. */
  lemma OccursAtTail(s: string, pat: string, j: nat)
    requires |s| > 0
    ensures OccursAt(s[1..], pat, j) <==> OccursAt(s, pat, j + 1)
  {
    if j + 1 + |pat| <= |s| {
      assert s[1..][j..j + |pat|] == s[j + 1..j + 1 + |pat|];
    }
  }

  /** The first token of str.split(): the longest whitespace-free prefix. */
  function TakeWord(s: string): (w: string)
    ensures |w| <= |s| && w == s[..|w|]
    ensures forall k :: 0 <= k < |w| ==> !IsSpace(w[k])
    ensures |w| == |s| || IsSpace(s[|w|])
    ensures |s| > 0 && !IsSpace(s[0]) ==> |w| > 0
  {
    if |s| == 0 || IsSpace(s[0]) then [] else [s[0]] + TakeWord(s[1..])
  }

  /** str.split() with no separator: the maximal whitespace-free runs, in order, with no empty strings. */
  function Split(s: string): (words: seq<string>)
    ensures words == [] <==> AllSpace(s)
    decreases |s|
  {
    var t := LStrip(s);
    if t == [] then [] else
    var w := TakeWord(t);
    [w] + Split(t[|w|..])
  }

  /** Every element of str.split() is a non-empty, whitespace-free word. */
  lemma {:induction false} SplitWords(s: string)
    ensures forall i :: 0 <= i < |Split(s)| ==> IsWord(Split(s)[i])
    decreases |s|
  {
    var t := LStrip(s);
    if t != [] {
      var w := TakeWord(t);
      var rest := Split(t[|w|..]);
      SplitWords(t[|w|..]);
      assert Split(s) == [w] + rest;
      forall i | 0 <= i < |Split(s)| ensures IsWord(Split(s)[i]) {
        if i > 0 {
          assert Split(s)[i] == rest[i - 1];
        }
      }
    }
  }

  /**
   The first element of str.split() is pinned down by the text alone: after a
   run of leading whitespace comes a word `w` that ends the text or is followed
   by whitespace.
   */
  lemma SplitFirstWord(s: string, lead: string, w: string, rest: string)
    requires s == lead + w + rest
    requires AllSpace(lead) && IsWord(w)
    requires rest == [] || IsSpace(rest[0])
    ensures Split(s) != [] && Split(s)[0] == w
  {
    assert s == lead + (w + rest);
    LStripSkipsSpace(lead, w + rest);
    TakeWordExact(w, rest);
    var t := LStrip(s);
    assert t == w + rest && t != [];
    assert Split(s) == [w] + Split(t[|w|..]);
  }

  /** With no leading whitespace, the first element of str.split() is the word the text starts with. */
  lemma SplitLeadingWord(s: string, w: string, rest: string)
    requires s == w + rest
    requires IsWord(w)
    requires rest == [] || IsSpace(rest[0])
    ensures Split(s) != [] && Split(s)[0] == w
  {
    var lead: string := [];
    assert s == lead + w + rest;
    SplitFirstWord(s, lead, w, rest);
  }

  /** A single word splits into just itself. */
  lemma SplitSingleWord(s: string)
    requires IsWord(s)
    ensures Split(s) == [s]
  {
    assert LStrip(s) == s;
    var w := TakeWord(s);
    assert |w| == |s|;
    assert w == s;
    var empty: string := [];
    assert s[|w|..] == empty;
    assert Split(empty) == [];
    assert Split(s) == [s] + Split(empty);
  }

  /** Leading whitespace followed by text that starts with no whitespace is dropped, and only it. */
  lemma LStripSkipsSpace(lead: string, t: string)
    requires AllSpace(lead)
    requires t == [] || !IsSpace(t[0])
    ensures LStrip(lead + t) == t
  {
    LeadingSpacesOf(lead, t);
    assert (lead + t)[|lead|..] == t;
  }

  lemma {:induction false} LeadingSpacesOf(lead: string, t: string)
    requires AllSpace(lead)
    requires t == [] || !IsSpace(t[0])
    ensures LeadingSpaces(lead + t) == |lead|
    decreases |lead|
  {
    if lead != [] {
      assert (lead + t)[1..] == lead[1..] + t;
      LeadingSpacesOf(lead[1..], t);
    } else {
      assert lead + t == t;
    }
  }

  lemma {:induction false} TakeWordExact(w: string, rest: string)
    requires forall k :: 0 <= k < |w| ==> !IsSpace(w[k])
    requires rest == [] || IsSpace(rest[0])
    ensures TakeWord(w + rest) == w
    decreases |w|
  {
    if w != [] {
      assert (w + rest)[0] == w[0];
      assert (w + rest)[1..] == w[1..] + rest;
      TakeWordExact(w[1..], rest);
      assert w == [w[0]] + w[1..];
    } else {
      assert w + rest == rest;
    }
  }
}
