/**
 The label normaliser: how one raw model response becomes a category
 (classifier.py:116-121; the same four lines appear at classifier.py:62-67).
 */
module Normaliser {
  import opened PyText
  import opened Categories

  /** The marker a model tends to echo back; it is deleted wherever it occurs. */
  const Marker: string := "category:"

  /**
   The response stripped, lowered, with every marker deleted and stripped
   again: the text whose first token is trusted.
   */
  function Cleaned(raw: string): (t: string)
    ensures t == [] || (!IsSpace(t[0]) && !IsSpace(t[|t| - 1]))
  {
    Strip(RemoveAll(Lower(Strip(raw)), Marker))
  }

  /**
   The label of a response: the first whitespace token of the cleaned text,
   or the fallback when there is no token or the token is not a category.
   */
  function Normalise(raw: string): (category: string)
    ensures IsCategory(category)
  {
    var words := Split(Cleaned(raw));
    Recognise(if |words| > 0 then words[0] else Other)
  }

  /** A token stands for itself when it is a category, and for the fallback otherwise. */
  function Recognise(token: string): (category: string)
    ensures IsCategory(category)
    ensures IsCategory(token) ==> category == token
    ensures !IsCategory(token) ==> category == Other
  {
    OtherIsCategory();
    if token in CATEGORIES then token else Other
  }

  /**
   The label is decided by the first token of the cleaned text alone: a known
   category is kept as it is, anything else becomes the fallback, and nothing
   after the first whitespace matters.
   */
  lemma NormaliseFirstToken(raw: string, w: string, rest: string)
    requires Cleaned(raw) == w + rest
    requires IsWord(w)
    requires rest == [] || IsSpace(rest[0])
    ensures Normalise(raw) == Recognise(w)
  {
    SplitLeadingWord(Cleaned(raw), w, rest);
  }

  /** A response that cleans up to a single word is labelled by that word alone. */
  lemma NormaliseSingleWord(raw: string, w: string)
    requires Cleaned(raw) == w
    requires IsWord(w)
    ensures Normalise(raw) == Recognise(w)
  {
    SplitSingleWord(w);
  }

  /** A response that is empty once trimmed (and freed of markers) gets the fallback. */
  lemma NormaliseBlank(raw: string)
    requires AllSpace(RemoveAll(Lower(Strip(raw)), Marker))
    ensures Normalise(raw) == Other
  {
  }

  /** In particular a response made only of whitespace gets the fallback. */
  lemma NormaliseWhitespace(raw: string)
    requires AllSpace(raw)
    ensures Normalise(raw) == Other
  {
    assert Strip(raw) == [];
    assert Lower([]) == [];
    NormaliseBlank(raw);
  }

  /** The normaliser ignores letter case. */
  lemma NormaliseIgnoresCase(raw: string)
    ensures Normalise(Lower(raw)) == Normalise(raw)
  {
    StripLower(raw);
    LowerIdempotent(Strip(raw));
  }

  /** A word of small letters and underscores has no whitespace, no capital and no colon. */
  lemma LabelWordShape(c: string)
    requires IsLabelWord(c)
    ensures IsWord(c)
    ensures Lower(c) == c
    ensures forall k :: 0 <= k < |c| ==> c[k] != ':'
  {
    forall k | 0 <= k < |c| ensures !IsSpace(c[k]) && !IsUpper(c[k]) {
      assert IsLabelChar(c[k]);
    }
    assert Lower(c) == c;
  }

  /** The marker contains a colon, which no label word does. */
  lemma MarkerColon()
    ensures |Marker| == 9 && Marker[8] == ':'
  {
  }

  /** Cleaning leaves such a word as it is... */
  lemma CleanedLabelWord(c: string)
    requires IsLabelWord(c)
    ensures Cleaned(c) == c
  {
    LabelWordShape(c);
    StripTrimmed(c);
    MarkerColon();
    MissingCharRulesOut(c, Marker, 8);
    RemoveAllAbsent(c, Marker);
  }

  lemma LowerMarkerPrefix()
    ensures Lower("Category: ") == Marker + " "
  {
  }

  /** Lowering "Category: " followed by lower-case text gives the marker, a space and that text. */
  lemma LowerMarked(t: string)
    requires Lower(t) == t
    ensures Lower("Category: " + t) == Marker + (" " + t)
  {
    LowerConcat("Category: ", t);
    LowerMarkerPrefix();
    assert (Marker + " ") + t == Marker + (" " + t);
  }

  /** A leading marker is deleted, and colon-free text after it is kept as it is. */
  lemma RemoveLeadingMarker(t: string)
    requires forall k :: 0 <= k < |t| ==> t[k] != ':'
    ensures RemoveAll(Marker + t, Marker) == t
  {
    RemoveAllLeading(Marker, t);
    MarkerColon();
    MissingCharRulesOut(t, Marker, 8);
    RemoveAllAbsent(t, Marker);
  }

  /** One leading space is stripped off trimmed text. */
  lemma SpaceThenTrimmed(t: string)
    requires t != [] && !IsSpace(t[0]) && !IsSpace(t[|t| - 1])
    ensures Strip(" " + t) == t
  {
    LStripSkipsSpace(" ", t);
    assert LStrip(t) == t;
    StripTrimmed(t);
  }

  /** A space in front of a colon-free text adds no colon. */
  lemma SpaceAddsNoColon(t: string)
    requires forall k :: 0 <= k < |t| ==> t[k] != ':'
    ensures forall k :: 0 <= k < |" " + t| ==> (" " + t)[k] != ':'
  {
    forall k | 0 <= k < |" " + t| ensures (" " + t)[k] != ':' {
      if k > 0 {
        assert (" " + t)[k] == t[k - 1];
      }
    }
  }

  /** ...and reduces "Category: " followed by it to the word itself. */
  lemma CleanedMarkedLabelWord(c: string)
    requires IsLabelWord(c)
    ensures Cleaned("Category: " + c) == c
  {
    LabelWordShape(c);
    CleanedMarkedText(c, c);
  }

  /** A label word, given back verbatim or after the marker, is its own first token. */
  lemma NormaliseLabelWord(c: string)
    requires IsLabelWord(c)
    ensures Normalise(c) == Recognise(c)
    ensures Normalise("Category: " + c) == Recognise(c)
  {
    LabelWordShape(c);
    CleanedLabelWord(c);
    CleanedMarkedLabelWord(c);
    NormaliseSingleWord(c, c);
    NormaliseSingleWord("Category: " + c, c);
  }

  /**
   A category name is recognised as itself, whether given back verbatim or
   echoed after the marker as "Category: <name>".
   */
  lemma NormaliseCategory(c: string)
    requires c in CATEGORIES
    ensures Normalise(c) == c
    ensures Normalise("Category: " + c) == c
  {
    CategoriesAreLowerWords();
    NormaliseLabelWord(c);
  }

  /** Cleaning "Category: <text>" leaves the lowered text, when that holds no colon and is trimmed. */
  lemma CleanedMarkedText(text: string, lowered: string)
    requires text != [] && !IsSpace(text[0]) && !IsSpace(text[|text| - 1])
    requires Lower(text) == lowered
    requires forall k :: 0 <= k < |lowered| ==> lowered[k] != ':'
    ensures Cleaned("Category: " + text) == lowered
  {
    assert !IsSpace(lowered[0]) && !IsSpace(lowered[|lowered| - 1]);
    StripAfterMarker(lowered);
    LowerMarkedText(text, lowered);
  }

  /** Deleting the marker from "category: <text>" and stripping leaves the text. */
  lemma StripAfterMarker(t: string)
    requires t != [] && !IsSpace(t[0]) && !IsSpace(t[|t| - 1])
    requires forall k :: 0 <= k < |t| ==> t[k] != ':'
    ensures Strip(RemoveAll(Marker + (" " + t), Marker)) == t
  {
    SpaceAddsNoColon(t);
    RemoveLeadingMarker(" " + t);
    SpaceThenTrimmed(t);
  }

  /** Stripping and lowering "Category: <text>" gives the marker, a space and the lowered text. */
  lemma LowerMarkedText(text: string, lowered: string)
    requires text != [] && !IsSpace(text[|text| - 1])
    requires Lower(text) == lowered
    ensures Lower(Strip("Category: " + text)) == Marker + (" " + lowered)
  {
    LowerConcat("Category: ", text);
    LowerMarkerPrefix();
    assert (Marker + " ") + lowered == Marker + (" " + lowered);
    MarkedTrimmed(text);
  }

  lemma MarkedTrimmed(text: string)
    requires text != [] && !IsSpace(text[|text| - 1])
    ensures Strip("Category: " + text) == "Category: " + text
  {
    var raw := "Category: " + text;
    assert raw[0] == 'C' && raw[|raw| - 1] == text[|text| - 1];
    StripTrimmed(raw);
  }

  /**
   A response "Category: <text>" is labelled by the first word of the lowered
   text, provided the text holds no colon and is trimmed.
   */
  lemma NormaliseMarkedText(text: string, w: string, rest: string)
    requires text != [] && !IsSpace(text[0]) && !IsSpace(text[|text| - 1])
    requires Lower(text) == w + rest
    requires IsWord(w) && (rest == [] || IsSpace(rest[0]))
    requires forall k :: 0 <= k < |w + rest| ==> (w + rest)[k] != ':'
    ensures Normalise("Category: " + text) == Recognise(w)
  {
    CleanedMarkedText(text, w + rest);
    NormaliseFirstToken("Category: " + text, w, rest);
  }

  /** The marker is dropped, capitals are lowered and trailing words are ignored. */
  lemma ExampleHistory()
    ensures Normalise("Category: History extra words") == "history"
  {
    ExampleHistoryFacts();
    NormaliseMarkedText("History extra words", "history", " extra words");
    HistoryIsCategory();
  }

  lemma ExampleHistoryFacts()
    ensures Lower("History extra words") == "history" + " extra words"
    ensures !IsSpace('H') && !IsSpace('s')
    ensures "Category: History extra words" == "Category: " + "History extra words"
    ensures IsWord("history")
    ensures forall k :: 0 <= k < |"history" + " extra words"| ==> ("history" + " extra words")[k] != ':'
  {
    ExampleLowerParts();
    ExampleSplitText();
    LowerConcat("History", " extra words");
    ExampleNoColon("history", " extra words");
    ExampleWord();
  }

  lemma ExampleSplitText()
    ensures "History extra words" == "History" + " extra words"
    ensures "Category: History extra words" == "Category: " + "History extra words"
  {
  }

  lemma ExampleWord()
    ensures IsWord("history")
  {
  }

  lemma ExampleLowerParts()
    ensures Lower("History") == "history"
    ensures Lower(" extra words") == " extra words"
  {
  }

  lemma ExampleNoColon(a: string, b: string)
    requires a == "history" && b == " extra words"
    ensures forall k :: 0 <= k < |a + b| ==> (a + b)[k] != ':'
  {
    forall k | 0 <= k < |a + b| ensures (a + b)[k] != ':' {
      if k < |a| {
        assert (a + b)[k] == a[k];
      } else {
        assert (a + b)[k] == b[k - |a|];
      }
    }
  }

  /** A blank response gets the fallback. */
  lemma ExampleBlank()
    ensures Normalise("  ") == Other
  {
    NormaliseWhitespace("  ");
  }
}
