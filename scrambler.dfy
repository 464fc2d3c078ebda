/**
 * The Scrambler answer cell of `src/modules/grading.py`: the letters-only
 * form used for matching, the separator clean-up that turns a free-form cell
 * into candidate answers, and the de-duplication that yields the display
 * list and the target set.
 */
module Scrambler {
  import opened Text

  /** `re.sub(r"[^A-Za-z]+", "", s).lower()` */
  function NormalizeLetters(s: string): string
    decreases |s|
  {
    if |s| == 0 then ""
    else (if IsAsciiLetter(s[0]) then [LowerChar(s[0])] else "") + NormalizeLetters(s[1..])
  }

  /** The letters-only form is lower-case ASCII letters only. */
  lemma {:induction false} NormalizeLettersLower(s: string)
    ensures |NormalizeLetters(s)| <= |s|
    ensures forall i :: 0 <= i < |NormalizeLetters(s)| ==> IsAsciiLower(NormalizeLetters(s)[i])
    decreases |s|
  {
    if |s| > 0 {
      NormalizeLettersLower(s[1..]);
    }
  }

  /** The letters-only form is empty exactly when there is no ASCII letter. */
  lemma {:induction false} NormalizeLettersEmpty(s: string)
    ensures NormalizeLetters(s) == "" <==> forall i :: 0 <= i < |s| ==> !IsAsciiLetter(s[i])
    decreases |s|
  {
    if |s| > 0 {
      NormalizeLettersEmpty(s[1..]);
      assert forall i :: 1 <= i < |s| ==> s[i] == s[1..][i - 1];
    }
  }

  /** The letters-only form of a concatenation is the concatenation of the forms. */
  lemma {:induction false} NormalizeLettersConcat(a: string, b: string)
    ensures NormalizeLetters(a + b) == NormalizeLetters(a) + NormalizeLetters(b)
    decreases |a|
  {
    if |a| == 0 {
      assert a + b == b;
    } else {
      assert (a + b)[0] == a[0];
      assert (a + b)[1..] == a[1..] + b;
      NormalizeLettersConcat(a[1..], b);
    }
  }

  /** Normalising a letters-only form again changes nothing. */
  lemma {:induction false} NormalizeLettersIdempotent(s: string)
    ensures NormalizeLetters(NormalizeLetters(s)) == NormalizeLetters(s)
    decreases |s|
  {
    if |s| > 0 {
      var head := if IsAsciiLetter(s[0]) then [LowerChar(s[0])] else "";
      NormalizeLettersConcat(head, NormalizeLetters(s[1..]));
      NormalizeLettersIdempotent(s[1..]);
      if IsAsciiLetter(s[0]) {
        assert NormalizeLetters(head) == head by {
          assert head[1..] == "";
        }
      }
    }
  }

  // ---------------------------------------------------------------------
  // Separator clean-up, one regular-expression stage at a time. Each stage
  // scans the string left to right the way `re.sub` does: a match is
  // replaced and scanning resumes after it; elsewhere the character is kept.

  /** A `\b` word character (the ASCII part of Python's set). */
  predicate IsWordChar(c: char) {
    IsAsciiLetter(c) || IsAsciiDigit(c) || c == '_'
  }

  /** `\b` at position `i`. */
  predicate BoundaryAt(s: string, i: nat)
    requires i <= |s|
  {
    (i > 0 && IsWordChar(s[i - 1])) != (i < |s| && IsWordChar(s[i]))
  }

  /** `w` at position `i`, ignoring case. */
  predicate WordAtIgnoringCase(s: string, i: nat, w: string) {
    i + |w| <= |s| && Lower(s[i..i + |w|]) == w
  }

  /** The length of the `\b(?:or|and)\b` match at `i`, or 0 when there is none. */
  function ConjunctionAt(s: string, i: nat): (k: nat)
    requires i <= |s|
    ensures k == 0 || (k <= |s| - i && (k == 2 || k == 3))
  {
    if BoundaryAt(s, i) && WordAtIgnoringCase(s, i, "or") && BoundaryAt(s, i + 2) then 2
    else if BoundaryAt(s, i) && WordAtIgnoringCase(s, i, "and") && BoundaryAt(s, i + 3) then 3
    else 0
  }

  /** `re.sub(r"\b(?:or|and)\b", ",", s[i..], flags=re.IGNORECASE)`, word boundaries read on all of `s`. */
  function ReplaceConjunctions(s: string, i: nat): string
    requires i <= |s|
    decreases |s| - i
  {
    if i == |s| then ""
    else
      var k := ConjunctionAt(s, i);
      if k > 0 then "," + ReplaceConjunctions(s, i + k) else [s[i]] + ReplaceConjunctions(s, i + 1)
  }

  /** The bullet characters replaced by commas: '•', '·' and '|'. */
  predicate IsBullet(c: char) {
    c == '\U{2022}' || c == '\U{b7}' || c == '|'
  }

  /** `s.replace("•", ",").replace("·", ",").replace("|", ",")` */
  function BulletsToCommas(s: string): (r: string)
    ensures |r| == |s|
    ensures forall i :: 0 <= i < |r| ==> !IsBullet(r[i])
  {
    seq(|s|, i requires 0 <= i < |s| => if IsBullet(s[i]) then ',' else s[i])
  }

  predicate IsListSeparator(c: char) {
    c == ';' || c == '/' || c == '\n'
  }

  /** The first position at or after `i` that is not a `;`, `/` or newline. */
  function SkipSeparators(s: string, i: nat): (j: nat)
    requires i <= |s|
    ensures i <= j <= |s|
    ensures j < |s| ==> !IsListSeparator(s[j])
    ensures forall k :: i <= k < j ==> IsListSeparator(s[k])
    decreases |s| - i
  {
    if i < |s| && IsListSeparator(s[i]) then SkipSeparators(s, i + 1) else i
  }

  /** The first position at or after `i` that is not whitespace. */
  function SkipSpaces(s: string, i: nat): (j: nat)
    requires i <= |s|
    ensures i <= j <= |s|
    ensures j < |s| ==> !IsSpace(s[j])
    ensures forall k :: i <= k < j ==> IsSpace(s[k])
    decreases |s| - i
  {
    if i < |s| && IsSpace(s[i]) then SkipSpaces(s, i + 1) else i
  }

  /** The first position at or after `i` that is not a comma. */
  function SkipCommas(s: string, i: nat): (j: nat)
    requires i <= |s|
    ensures i <= j <= |s|
    ensures j < |s| ==> s[j] != ','
    ensures forall k :: i <= k < j ==> s[k] == ','
    decreases |s| - i
  {
    if i < |s| && s[i] == ',' then SkipCommas(s, i + 1) else i
  }

  /** `re.sub(r"[;/\n]+", ",", s[i..])` */
  function SeparatorRunsToCommas(s: string, i: nat): (r: string)
    requires i <= |s|
    ensures forall k :: 0 <= k < |r| ==> !IsListSeparator(r[k])
    decreases |s| - i
  {
    if i == |s| then ""
    else if IsListSeparator(s[i]) then "," + SeparatorRunsToCommas(s, SkipSeparators(s, i))
    else [s[i]] + SeparatorRunsToCommas(s, i + 1)
  }

  /** `re.sub(r"\s*,\s*", ",", s[i..])` */
  function TightenCommas(s: string, i: nat): string
    requires i <= |s|
    decreases |s| - i
  {
    if i == |s| then ""
    else
      var j := SkipSpaces(s, i);
      if j < |s| && s[j] == ',' then "," + TightenCommas(s, SkipSpaces(s, j + 1))
      else [s[i]] + TightenCommas(s, i + 1)
  }

  /** `re.sub(r",\s*,+", ",", s[i..])` */
  function MergeCommas(s: string, i: nat): string
    requires i <= |s|
    decreases |s| - i
  {
    if i == |s| then ""
    else if s[i] == ',' && SkipSpaces(s, i + 1) < |s| && s[SkipSpaces(s, i + 1)] == ',' then
      "," + MergeCommas(s, SkipCommas(s, SkipSpaces(s, i + 1)))
    else [s[i]] + MergeCommas(s, i + 1)
  }

  predicate IsSpaceOrComma(c: char) { c == ' ' || c == ',' }

  /** `s.strip(" ,")` */
  function StripSpaceComma(s: string): (r: string)
    ensures r != "" ==> !IsSpaceOrComma(r[0]) && !IsSpaceOrComma(r[|r| - 1])
    decreases |s|
  {
    if |s| > 0 && IsSpaceOrComma(s[0]) then StripSpaceComma(s[1..])
    else if |s| > 0 && IsSpaceOrComma(s[|s| - 1]) then StripSpaceComma(s[..|s| - 1])
    else s
  }

  /** The cell after every substitution, just before it is split. */
  function Normalized(answer: string): string {
    var s1 := ReplaceConjunctions(answer, 0);
    var s2 := BulletsToCommas(s1);
    var s3 := SeparatorRunsToCommas(s2, 0);
    var s4 := TightenCommas(s3, 0);
    StripSpaceComma(MergeCommas(s4, 0))
  }

  /** `[p.strip() for p in ps if p.strip()]` */
  function StrippedNonBlank(ps: seq<string>): (r: seq<string>)
    ensures forall i :: 0 <= i < |r| ==> r[i] != ""
    decreases |ps|
  {
    if |ps| == 0 then []
    else (if Strip(ps[0]) != "" then [Strip(ps[0])] else []) + StrippedNonBlank(ps[1..])
  }

  /** `[p for p in ps if p.strip()]` */
  function NonBlank(ps: seq<string>): (r: seq<string>)
    ensures forall i :: 0 <= i < |r| ==> Strip(r[i]) != ""
    decreases |ps|
  {
    if |ps| == 0 then []
    else (if Strip(ps[0]) != "" then [ps[0]] else []) + NonBlank(ps[1..])
  }

  /** The first position `j >= i` opening a run of two or more whitespace characters, or `|s|`. */
  function FirstWideGap(s: string, i: nat): (j: nat)
    requires i <= |s|
    ensures i <= j <= |s|
    ensures j < |s| ==> j + 1 < |s| && IsSpace(s[j]) && IsSpace(s[j + 1])
    decreases |s| - i
  {
    if i + 1 < |s| && IsSpace(s[i]) && IsSpace(s[i + 1]) then i
    else if i < |s| then FirstWideGap(s, i + 1)
    else i
  }

  /** `re.split(r"\s{2,}", s)` */
  function SplitWideGaps(s: string): (r: seq<string>)
    ensures |r| >= 1
    decreases |s|
  {
    var j := FirstWideGap(s, 0);
    if j == |s| then [s]
    else [s[..j]] + SplitWideGaps(s[SkipSpaces(s, j)..])
  }

  /** The candidate answers: the comma-separated pieces, or the pieces between wide gaps when there are not two. */
  function Candidates(answer: string): seq<string> {
    var s := Normalized(answer);
    var parts := StrippedNonBlank(SplitOn(s, ','));
    if |parts| <= 1 then NonBlank(SplitWideGaps(s)) else parts
  }

  // ---------------------------------------------------------------------
  // De-duplication by letters-only form.

  /** The display list and the set of letters-only targets. */
  datatype AnswerList = AnswerList(display: seq<string>, targets: set<string>)

  /** `[p.strip() for p in parts]`: the display text of each candidate. */
  function Trimmed(parts: seq<string>): (ds: seq<string>)
    ensures |ds| == |parts|
    ensures forall k :: 0 <= k < |parts| ==> ds[k] == Strip(parts[k])
  {
    seq(|parts|, k requires 0 <= k < |parts| => Strip(parts[k]))
  }

  /** The loop of `_parse_scrambler_answer_list` over the stripped candidates `ds`, as a fold from the left. */
  function Dedupe(ds: seq<string>): AnswerList
    decreases |ds|
  {
    if |ds| == 0 then AnswerList([], {})
    else
      var prev := Dedupe(ds[..|ds| - 1]);
      var disp := ds[|ds| - 1];
      var norm := NormalizeLetters(disp);
      if norm == "" || norm in prev.targets then prev
      else AnswerList(prev.display + [disp], prev.targets + {norm})
  }

  /** `_parse_scrambler_answer_list(answer)` */
  function ParseAnswerList(answer: string): AnswerList {
    if Strip(answer) == "" then AnswerList([], {}) else Dedupe(Trimmed(Candidates(answer)))
  }

  /** The position of the first entry of `ds` whose letters-only form is `n`, or `|ds|`. */
  function FirstWithForm(ds: seq<string>, n: string): (k: nat)
    ensures k <= |ds|
    ensures k < |ds| ==> NormalizeLetters(ds[k]) == n
    ensures forall j :: 0 <= j < k ==> NormalizeLetters(ds[j]) != n
    decreases |ds|
  {
    if |ds| == 0 then 0
    else if NormalizeLetters(ds[0]) == n then 0
    else 1 + FirstWithForm(ds[1..], n)
  }

  lemma {:induction false} FirstWithFormPrefix(ds: seq<string>, n: string)
    requires |ds| > 0
    ensures var m := |ds| - 1;
      FirstWithForm(ds, n) == if FirstWithForm(ds[..m], n) < m then FirstWithForm(ds[..m], n)
        else if NormalizeLetters(ds[m]) == n then m else |ds|
  {
    var m := |ds| - 1;
    var pre := ds[..m];
    var k := FirstWithForm(pre, n);
    var K := FirstWithForm(ds, n);
    if k < m {
      assert NormalizeLetters(pre[k]) == n && pre[k] == ds[k];
      assert K <= k;
    } else {
      forall j | 0 <= j < m ensures NormalizeLetters(ds[j]) != n {
        assert pre[j] == ds[j];
      }
    }
  }

  /** Every display entry has a non-empty letters-only form, and no two share one. */
  ghost predicate DistinctForms(d: seq<string>) {
    (forall i :: 0 <= i < |d| ==> NormalizeLetters(d[i]) != "")
    && (forall i, j :: 0 <= i < j < |d| ==> NormalizeLetters(d[i]) != NormalizeLetters(d[j]))
  }

  /** The targets are exactly the letters-only forms of the display entries. */
  ghost predicate TargetsAreForms(d: seq<string>, t: set<string>) {
    forall x :: x in t <==> exists i :: 0 <= i < |d| && NormalizeLetters(d[i]) == x
  }

  /** Each entry is the first candidate with its form, and the entries keep the candidates' order. */
  ghost predicate FirstInOrder(ds: seq<string>, d: seq<string>) {
    (forall i :: 0 <= i < |d| ==>
       FirstWithForm(ds, NormalizeLetters(d[i])) < |ds| && d[i] == ds[FirstWithForm(ds, NormalizeLetters(d[i]))])
    && (forall i, j :: 0 <= i < j < |d| ==>
         FirstWithForm(ds, NormalizeLetters(d[i])) < FirstWithForm(ds, NormalizeLetters(d[j])))
  }

  /** Every candidate with a non-empty letters-only form is represented in the targets. */
  ghost predicate CoversAll(ds: seq<string>, t: set<string>) {
    forall k :: 0 <= k < |ds| && NormalizeLetters(ds[k]) != "" ==> NormalizeLetters(ds[k]) in t
  }

  /**
   * What the de-duplication of the stripped candidates `ds` promises:
   * distinct non-empty forms, targets equal to the entries' forms, each
   * entry the first candidate with its form in the candidates' order, and no
   * candidate with a form left unrepresented.
   */
  ghost predicate DedupedFrom(ds: seq<string>, a: AnswerList) {
    DistinctForms(a.display) && TargetsAreForms(a.display, a.targets)
    && FirstInOrder(ds, a.display) && CoversAll(ds, a.targets)
  }

  /** A last candidate whose form is empty or already present leaves the result as it was. */
  lemma DedupeKeepStep(ds: seq<string>, a: AnswerList)
    requires |ds| > 0 && DedupedFrom(ds[..|ds| - 1], a)
    requires NormalizeLetters(ds[|ds| - 1]) == "" || NormalizeLetters(ds[|ds| - 1]) in a.targets
    ensures DedupedFrom(ds, a)
  {
    var m := |ds| - 1;
    var pre := ds[..m];
    forall i | 0 <= i < |a.display|
      ensures FirstWithForm(ds, NormalizeLetters(a.display[i])) == FirstWithForm(pre, NormalizeLetters(a.display[i]))
    {
      FirstWithFormPrefix(ds, NormalizeLetters(a.display[i]));
    }
    forall i | 0 <= i < |a.display|
      ensures a.display[i] == ds[FirstWithForm(ds, NormalizeLetters(a.display[i]))]
    {
      assert pre[FirstWithForm(pre, NormalizeLetters(a.display[i]))] == ds[FirstWithForm(pre, NormalizeLetters(a.display[i]))];
    }
    forall k | 0 <= k < |ds| && NormalizeLetters(ds[k]) != "" ensures NormalizeLetters(ds[k]) in a.targets {
      if k < m { assert pre[k] == ds[k]; }
    }
  }

  /** The new entry of an add step is the first candidate with its form. */
  lemma DedupeAddFirst(ds: seq<string>, a: AnswerList)
    requires |ds| > 0 && CoversAll(ds[..|ds| - 1], a.targets)
    requires NormalizeLetters(ds[|ds| - 1]) != "" && NormalizeLetters(ds[|ds| - 1]) !in a.targets
    ensures FirstWithForm(ds, NormalizeLetters(ds[|ds| - 1])) == |ds| - 1
  {
    var m := |ds| - 1;
    var pre := ds[..m];
    var norm := NormalizeLetters(ds[m]);
    FirstWithFormPrefix(ds, norm);
  }

  /** The old entries of an add step keep their first positions, all before the new one. */
  lemma DedupeAddOld(ds: seq<string>, a: AnswerList)
    requires |ds| > 0 && DedupedFrom(ds[..|ds| - 1], a)
    ensures forall i :: 0 <= i < |a.display| ==>
      FirstWithForm(ds, NormalizeLetters(a.display[i])) == FirstWithForm(ds[..|ds| - 1], NormalizeLetters(a.display[i])) < |ds| - 1
      && a.display[i] == ds[FirstWithForm(ds, NormalizeLetters(a.display[i]))]
  {
    var m := |ds| - 1;
    var pre := ds[..m];
    forall i | 0 <= i < |a.display|
      ensures FirstWithForm(ds, NormalizeLetters(a.display[i])) == FirstWithForm(pre, NormalizeLetters(a.display[i])) < m
      ensures a.display[i] == ds[FirstWithForm(ds, NormalizeLetters(a.display[i]))]
    {
      FirstWithFormPrefix(ds, NormalizeLetters(a.display[i]));
      assert pre[FirstWithForm(pre, NormalizeLetters(a.display[i]))] == ds[FirstWithForm(pre, NormalizeLetters(a.display[i]))];
    }
  }

  /** Appending an entry adds its form to the targets. */
  lemma TargetsSnoc(d: seq<string>, t: set<string>, x: string)
    requires TargetsAreForms(d, t)
    ensures TargetsAreForms(d + [x], t + {NormalizeLetters(x)})
  {
    var d' := d + [x];
    forall y ensures y in t + {NormalizeLetters(x)} <==> exists i :: 0 <= i < |d'| && NormalizeLetters(d'[i]) == y {
      if y in t {
        var i :| 0 <= i < |d| && NormalizeLetters(d[i]) == y;
        assert d'[i] == d[i];
      }
      if y == NormalizeLetters(x) {
        assert d'[|d|] == x;
      }
      if exists i :: 0 <= i < |d'| && NormalizeLetters(d'[i]) == y {
        var i :| 0 <= i < |d'| && NormalizeLetters(d'[i]) == y;
        if i < |d| { assert d'[i] == d[i]; }
      }
    }
  }

  lemma AddKeepsDistinct(d: seq<string>, t: set<string>, x: string)
    requires DistinctForms(d) && TargetsAreForms(d, t)
    requires NormalizeLetters(x) != "" && NormalizeLetters(x) !in t
    ensures DistinctForms(d + [x])
  {
    var d' := d + [x];
    forall i | 0 <= i < |d| ensures NormalizeLetters(d[i]) != NormalizeLetters(x) {
      assert NormalizeLetters(d[i]) in t;
    }
    assert forall i :: 0 <= i < |d| ==> d'[i] == d[i];
  }

  lemma AddKeepsOrder(ds: seq<string>, a: AnswerList)
    requires |ds| > 0 && DedupedFrom(ds[..|ds| - 1], a)
    requires NormalizeLetters(ds[|ds| - 1]) != "" && NormalizeLetters(ds[|ds| - 1]) !in a.targets
    ensures FirstInOrder(ds, a.display + [ds[|ds| - 1]])
  {
    DedupeAddFirst(ds, a);
    DedupeAddOld(ds, a);
    var d' := a.display + [ds[|ds| - 1]];
    assert forall i :: 0 <= i < |a.display| ==> d'[i] == a.display[i];
  }

  lemma AddKeepsCover(ds: seq<string>, t: set<string>)
    requires |ds| > 0 && CoversAll(ds[..|ds| - 1], t)
    ensures CoversAll(ds, t + {NormalizeLetters(ds[|ds| - 1])})
  {
    var m := |ds| - 1;
    forall k | 0 <= k < |ds| && NormalizeLetters(ds[k]) != ""
      ensures NormalizeLetters(ds[k]) in t + {NormalizeLetters(ds[m])}
    {
      if k < m { assert ds[..m][k] == ds[k]; }
    }
  }

  /** A last candidate with a new non-empty form is appended, and its form added. */
  lemma DedupeAddStep(ds: seq<string>, a: AnswerList)
    requires |ds| > 0 && DedupedFrom(ds[..|ds| - 1], a)
    requires NormalizeLetters(ds[|ds| - 1]) != "" && NormalizeLetters(ds[|ds| - 1]) !in a.targets
    ensures DedupedFrom(ds, AnswerList(a.display + [ds[|ds| - 1]], a.targets + {NormalizeLetters(ds[|ds| - 1])}))
  {
    var x := ds[|ds| - 1];
    AddKeepsDistinct(a.display, a.targets, x);
    AddKeepsOrder(ds, a);
    TargetsSnoc(a.display, a.targets, x);
    AddKeepsCover(ds, a.targets);
  }

  lemma {:induction false} DedupeSpec(ds: seq<string>)
    ensures DedupedFrom(ds, Dedupe(ds))
    decreases |ds|
  {
    if |ds| > 0 {
      var m := |ds| - 1;
      DedupeSpec(ds[..m]);
      var prev := Dedupe(ds[..m]);
      if NormalizeLetters(ds[m]) == "" || NormalizeLetters(ds[m]) in prev.targets {
        DedupeKeepStep(ds, prev);
      } else {
        DedupeAddStep(ds, prev);
      }
    }
  }

  /**
   * `_parse_scrambler_answer_list` returns an empty list and set for a blank
   * cell; otherwise its result is de-duplicated from the stripped candidates
   * as `DedupedFrom` states, and every target is lower-case ASCII letters.
   */
  lemma ParseAnswerListSpec(answer: string)
    ensures Strip(answer) == "" ==> ParseAnswerList(answer) == AnswerList([], {})
    ensures Strip(answer) != "" ==> DedupedFrom(Trimmed(Candidates(answer)), ParseAnswerList(answer))
    ensures forall t, i :: t in ParseAnswerList(answer).targets && 0 <= i < |t| ==> IsAsciiLower(t[i])
  {
    if Strip(answer) != "" {
      var a := ParseAnswerList(answer);
      DedupeSpec(Trimmed(Candidates(answer)));
      forall t, i | t in a.targets && 0 <= i < |t| ensures IsAsciiLower(t[i]) {
        var j :| 0 <= j < |a.display| && NormalizeLetters(a.display[j]) == t;
        NormalizeLettersLower(a.display[j]);
      }
    }
  }

  /** `_parse_scrambler_answer_list(answer)`, growing `display` and `seen_norm` part by part. */
  method ParseScramblerAnswerList(answer: string) returns (display: seq<string>, targets: set<string>)
    ensures AnswerList(display, targets) == ParseAnswerList(answer)
  {
    if Strip(answer) == "" {
      return [], {};
    }
    var parts := Candidates(answer);
    ghost var ds := Trimmed(parts);
    display, targets := [], {};
    var k := 0;
    while k < |parts|
      invariant 0 <= k <= |parts|
      invariant AnswerList(display, targets) == Dedupe(ds[..k])
    {
      assert ds[..k + 1][..k] == ds[..k] && ds[..k + 1][k] == Strip(parts[k]);
      var disp := Strip(parts[k]);
      var norm := NormalizeLetters(disp);
      if norm != "" && norm !in targets {
        targets := targets + {norm};
        display := display + [disp];
      }
      k := k + 1;
    }
    assert ds[..k] == ds;
  }
}
