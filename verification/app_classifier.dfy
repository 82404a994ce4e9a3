/** How the sorting loop (SDM_logic/app.py) reads the classifier's answer:
    the markdown-fence cleanup applied before JSON parsing, and the strict
    category-to-compartment table. */
module ClassifierOutput {
  import opened Values
  import opened Text
  import opened Bins

  /** The category label the classifier is asked to return for each
      compartment. */
  function CategoryLabel(b: BinCode): string {
    match b
    case BR => "Bio Degradable and Recyclable"
    case BNR => "Bio Degradable and Non Recyclable"
    case NBR => "Non Bio Degradable and Recyclable"
    case NBNR => "Non Bio Degradable and Non Recyclable"
  }

  /** The lookup table `get_bin_code` consults. */
  const CategoryTable: map<string, BinCode> := map[
    "Bio Degradable and Recyclable" := BR,
    "Bio Degradable and Non Recyclable" := BNR,
    "Non Bio Degradable and Recyclable" := NBR,
    "Non Bio Degradable and Non Recyclable" := NBNR
  ]

  /** `get_bin_code`: exact match of the stripped category against the four
      labels; anything else routes nowhere. */
  function GetBinCode(category: string): (r: Option<BinCode>)
    ensures forall b :: r == Some(b) <==> Strip(category) == CategoryLabel(b)
  {
    var key := Strip(category);
    TableHoldsLabels();
    if key in CategoryTable then Some(CategoryTable[key]) else None
  }

  /** The table maps each label to its own compartment and holds nothing else. */
  lemma TableHoldsLabels()
    ensures forall b :: CategoryLabel(b) in CategoryTable && CategoryTable[CategoryLabel(b)] == b
    ensures forall k :: k in CategoryTable ==> k == CategoryLabel(CategoryTable[k])
  {
    assert CategoryTable.Keys == {CategoryLabel(BR), CategoryLabel(BNR), CategoryLabel(NBR), CategoryLabel(NBNR)};
  }

  /** Each canonical label routes to its own compartment... */
  lemma CanonicalLabelsRoute(b: BinCode)
    ensures GetBinCode(CategoryLabel(b)) == Some(b)
  {
    StripTrimmed(CategoryLabel(b));
  }

  /** ...also when the classifier pads it with whitespace. */
  lemma PaddedLabelsRoute(w1: string, b: BinCode, w2: string)
    requires AllSpace(w1) && AllSpace(w2)
    ensures GetBinCode(w1 + CategoryLabel(b) + w2) == Some(b)
  {
    StripSurrounded(w1, CategoryLabel(b), w2);
  }

  /** Case variants are not recognised: a category whose first character is a
      lower-case `b` or `n` routes nowhere. */
  lemma LowerCaseDoesNotRoute(t: string)
    requires |t| > 0 && t[0] in "bn"
    ensures GetBinCode(t) == None
  {
    StripKeepsFirst(t);
    forall b: BinCode
      ensures Strip(t) != CategoryLabel(b)
    {
      assert CategoryLabel(b)[0] in "BN";
    }
  }

  /** A text that does not start with whitespace keeps its first character
      through `strip`. */
  lemma StripKeepsFirst(t: string)
    requires |t| > 0 && !IsSpace(t[0])
    ensures |Strip(t)| > 0 && Strip(t)[0] == t[0]
  {
    var k := Lead(t);
    var r := Strip(t);
    assert r[0] == t[k];
  }

  // ---------------------------------------------------------------------
  // clean_json_string

  const Fence := "```"
  const JsonFence := "```json"

  /** `clean_json_string`: drop every "```json", then every "```", then strip. */
  function CleanJsonString(raw: string): (r: string)
    ensures !Contains(r, Fence)
    ensures Trimmed(r)
  {
    var unfenced := Replace(Replace(raw, JsonFence, ""), Fence, "");
    FencesStayRemoved(Replace(raw, JsonFence, ""));
    var r := Strip(unfenced);
    InfixFree(unfenced, Lead(unfenced), Lead(unfenced) + |r|, Fence);
    r
  }

  /** Removing every "```" cannot create a new one: the text before each
      removed fence never ends in a backtick (else the fence would have been
      found one place earlier). */
  lemma {:induction false} FencesStayRemoved(s: string)
    ensures !Contains(Replace(s, Fence, ""), Fence)
    decreases |s|
  {
    match IndexOf(s, Fence)
    case None =>
      ReplaceAbsent(s, Fence, "");
    case Some(i) =>
      var before := s[..i];
      var rest := Replace(s[i + |Fence|..], Fence, "");
      ReplaceFirst(s, Fence, "", i);
      assert before + "" + rest == before + rest;
      FencesStayRemoved(s[i + |Fence|..]);
      PrefixFree(s, Fence, i);
      if i > 0 {
        BacktickBefore(s, i);
        assert !OccursAt(s, Fence, i - 1);
        assert before[i - 1] == s[i - 1];
      }
      NoFenceAcross(before, rest);
      ConcatFree(before, rest, Fence);
  }

  /** A fence cannot straddle the end of a text that does not end in a
      backtick. */
  lemma NoFenceAcross(a: string, b: string)
    requires |a| == 0 || a[|a| - 1] != '`'
    ensures forall j :: |a| - |Fence| < j < |a| ==> !OccursAt(a + b, Fence, j)
  {
    forall j | |a| - |Fence| < j < |a|
      ensures !OccursAt(a + b, Fence, j)
    {
      if 0 <= j {
        WindowChar(a + b, Fence, j, |a| - 1 - j);
        assert (a + b)[|a| - 1] == a[|a| - 1];
      }
    }
  }

  lemma BacktickBefore(s: string, i: int)
    requires 0 < i && OccursAt(s, Fence, i)
    ensures s[i - 1] == '`' ==> OccursAt(s, Fence, i - 1)
  {
    if s[i - 1] == '`' {
      assert s[i] == '`' && s[i + 1] == '`' by {
        WindowChar(s, Fence, i, 0);
        WindowChar(s, Fence, i, 1);
      }
      assert s[i - 1..i + 2] == Fence;
    }
  }

  lemma JsonFenceStartsWithFence(y: string, j: int)
    ensures OccursAt(y, JsonFence, j) ==> OccursAt(y, Fence, j)
  {
    if OccursAt(y, JsonFence, j) {
      assert y[j..j + 3] == y[j..j + 7][..3];
    }
  }

  /** Cleaning twice is cleaning once. */
  lemma CleanIdempotent(raw: string)
    ensures CleanJsonString(CleanJsonString(raw)) == CleanJsonString(raw)
  {
    var y := CleanJsonString(raw);
    forall j | 0 <= j <= |y| - |JsonFence|
      ensures !OccursAt(y, JsonFence, j)
    {
      JsonFenceStartsWithFence(y, j);
    }
    ReplaceAbsent(y, JsonFence, "");
    ReplaceAbsent(y, Fence, "");
    StripTrimmed(y);
  }
}
