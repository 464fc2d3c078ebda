/** `src/modules/last_names.py`: the last-name initial. */
module LastNames {
  import opened Text

  /** `normalize_last_initial(value)` */
  function NormalizeLastInitial(value: string): (r: string)
    ensures |r| <= 1
    ensures r != "" ==> IsAsciiUpper(r[0])
  {
    var v := Strip(value);
    if v == "" then ""
    else if IsAsciiLetter(v[0]) then [UpperChar(v[0])]
    else ""
  }

  /**
   * The result is the upper-cased first non-space character when that is a
   * letter, and "" for blank input or a digit or symbol in first place.
   */
  lemma {:induction false} LastInitialOfFirstNonSpace(value: string, k: nat)
    requires k < |value| && !IsSpace(value[k])
    requires forall j :: 0 <= j < k ==> IsSpace(value[j])
    ensures NormalizeLastInitial(value) == if IsAsciiLetter(value[k]) then [UpperChar(value[k])] else ""
  {
    FirstNonSpaceIsStripHead(value, k);
  }

  lemma BlankLastInitial(value: string)
    requires IsBlank(value)
    ensures NormalizeLastInitial(value) == ""
  {
    StripEmptyIffBlank(value);
  }

  lemma {:induction false} FirstNonSpaceIsStripHead(value: string, k: nat)
    requires k < |value| && !IsSpace(value[k])
    requires forall j :: 0 <= j < k ==> IsSpace(value[j])
    ensures Strip(value) != "" && Strip(value)[0] == value[k]
    decreases k
  {
    if k == 0 {
      StripKeepsFirst(value);
    } else {
      assert IsSpace(value[0]);
      FirstNonSpaceIsStripHead(value[1..], k - 1);
      assert LStrip(value) == LStrip(value[1..]);
    }
  }

  /** Only the first non-space character matters: the rest never changes the initial. */
  lemma OnlyFirstCharacterMatters(a: string, b: string)
    requires Strip(a) != "" && Strip(b) != "" && Strip(a)[0] == Strip(b)[0]
    ensures NormalizeLastInitial(a) == NormalizeLastInitial(b)
  {
  }
}
