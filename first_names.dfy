/** `src/modules/first_names.py`: clean-up of a submitter's first name. */
module FirstNames {
  import opened Text

  /** `re.sub(r"[^\x00-\x7F]+", "", s)` */
  function DropNonAscii(s: string): (r: string)
    ensures forall i :: 0 <= i < |r| ==> IsAscii(r[i])
    ensures (forall i :: 0 <= i < |s| ==> IsAscii(s[i])) ==> r == s
    decreases |s|
  {
    if |s| == 0 then []
    else (if IsAscii(s[0]) then [s[0]] else []) + DropNonAscii(s[1..])
  }

  /** `s.split("@")[0]` */
  function BeforeAt(s: string): (r: string)
    ensures '@' !in r
    ensures '@' !in s ==> r == s
    ensures |r| <= |s| && r == s[..|r|]
  {
    s[..IndexOfChar(s, '@')]
  }

  predicate HasCased(s: string) {
    exists i | 0 <= i < |s| :: IsAsciiLetter(s[i])
  }

  /** `s.isupper()` for an ASCII string. */
  predicate IsUpperCase(s: string) {
    HasCased(s) && forall i | 0 <= i < |s| :: IsAsciiLetter(s[i]) ==> IsAsciiUpper(s[i])
  }

  /** `s.islower()` for an ASCII string. */
  predicate IsLowerCase(s: string) {
    HasCased(s) && forall i | 0 <= i < |s| :: IsAsciiLetter(s[i]) ==> IsAsciiLower(s[i])
  }

  /** `s.capitalize()` for an ASCII string. */
  function Capitalize(s: string): (r: string)
    ensures |r| == |s|
    ensures forall i :: 0 <= i < |s| && IsAscii(s[i]) ==> IsAscii(r[i])
    ensures forall i :: 0 <= i < |s| && s[i] != '@' ==> r[i] != '@'
  {
    if |s| == 0 then [] else [UpperChar(s[0])] + Lower(s[1..])
  }

  /** The name before re-casing: stripped, ASCII only, cut at the first '@'. */
  function Cleaned(name: string): (r: string)
    ensures forall i :: 0 <= i < |r| ==> IsAscii(r[i])
    ensures '@' !in r
  {
    var a := DropNonAscii(Strip(name));
    var b := BeforeAt(a);
    assert forall i :: 0 <= i < |b| ==> b[i] == a[i];
    b
  }

  /** `normalize_first_name(name)` */
  function NormalizeFirstName(name: string): (r: string)
    ensures forall i :: 0 <= i < |r| ==> IsAscii(r[i])
    ensures '@' !in r
    ensures |r| == |Cleaned(name)|
  {
    var b := Cleaned(name);
    if IsUpperCase(b) || IsLowerCase(b) then Capitalize(b) else b
  }

  /**
   * A name whose letters are all upper case or all lower case comes out with
   * its first character upper case and the rest lower case.
   */
  lemma UniformCaseCapitalized(name: string)
    requires IsUpperCase(Cleaned(name)) || IsLowerCase(Cleaned(name))
    ensures var r := NormalizeFirstName(name);
      r != [] && !IsAsciiLower(r[0]) && forall i :: 1 <= i < |r| ==> !IsAsciiUpper(r[i])
  {
  }

  /** A mixed-case name such as "MaryAnne" or "John" is kept as it is. */
  lemma MixedCaseKept(name: string)
    requires !IsUpperCase(Cleaned(name)) && !IsLowerCase(Cleaned(name))
    ensures NormalizeFirstName(name) == Cleaned(name)
  {
  }

  /** A trimmed ASCII name without '@' passes the clean-up stages unchanged. */
  lemma CleanedOfPlain(s: string)
    requires s == [] || (!IsSpace(s[0]) && !IsSpace(s[|s| - 1]))
    requires forall i :: 0 <= i < |s| ==> IsAscii(s[i])
    requires '@' !in s
    ensures Cleaned(s) == s
  {
    StripOfStripped(s);
  }

  lemma ExampleUpper()
    ensures NormalizeFirstName("JOHN") == "John"
  {
    JohnSteps();
  }

  lemma JohnSteps()
    ensures Cleaned("JOHN") == "JOHN" && IsUpperCase("JOHN") && Capitalize("JOHN") == "John"
  {
    CleanedOfPlain("JOHN");
    assert IsAsciiLetter("JOHN"[0]);
    assert Lower("OHN") == "ohn";
  }

  lemma ExampleMixed()
    ensures NormalizeFirstName("MaryAnne") == "MaryAnne"
  {
    MaryAnneSteps();
  }

  lemma MaryAnneSteps()
    ensures Cleaned("MaryAnne") == "MaryAnne" && !IsLowerCase("MaryAnne") && !IsUpperCase("MaryAnne")
  {
    CleanedOfPlain("MaryAnne");
    MixedCase("MaryAnne", 0, 1);
  }

  /** An upper-case and a lower-case letter make a string neither upper- nor lower-case. */
  lemma MixedCase(s: string, i: nat, j: nat)
    requires i < |s| && j < |s| && IsAsciiUpper(s[i]) && IsAsciiLower(s[j])
    ensures !IsLowerCase(s) && !IsUpperCase(s)
  {
    assert IsAsciiLetter(s[i]) && IsAsciiLetter(s[j]);
  }

  /** An e-mail address typed as a name keeps only its local part. */
  lemma EmailLocalPartKept(local: string, domain: string)
    requires local != [] && !IsSpace(local[0]) && domain != [] && !IsSpace(domain[|domain| - 1])
    requires forall i :: 0 <= i < |local| ==> IsAscii(local[i])
    requires forall i :: 0 <= i < |domain| ==> IsAscii(domain[i])
    requires '@' !in local
    ensures Cleaned(local + "@" + domain) == local
  {
    var s := local + "@" + domain;
    StripOfStripped(s);
    assert forall i :: 0 <= i < |s| ==> IsAscii(s[i]) by {
      forall i | 0 <= i < |s| ensures IsAscii(s[i]) {
        if i > |local| { assert s[i] == domain[i - |local| - 1]; }
      }
    }
    assert s[|local|] == '@';
    assert forall j :: 0 <= j < |local| ==> s[j] != '@' by {
      forall j | 0 <= j < |local| ensures s[j] != '@' { assert s[j] == local[j]; }
    }
    assert IndexOfChar(s, '@') == |local|;
    assert s[..|local|] == local;
  }

  lemma {:induction false} CapitalizeIdempotent(s: string)
    ensures Capitalize(Capitalize(s)) == Capitalize(s)
  {
  }

  /**
   * Normalising an already-normalised name changes nothing, provided the first
   * pass left no surrounding whitespace (removing non-ASCII characters can
   * expose spaces that `strip()` ran before).
   */
  lemma NormalizeFirstNameIdempotent(name: string)
    requires Strip(NormalizeFirstName(name)) == NormalizeFirstName(name)
    ensures NormalizeFirstName(NormalizeFirstName(name)) == NormalizeFirstName(name)
  {
    var y := NormalizeFirstName(name);
    var b := Cleaned(name);
    assert DropNonAscii(y) == y;
    assert BeforeAt(y) == y;
    assert Cleaned(y) == y;
    if IsUpperCase(b) || IsLowerCase(b) {
      CapitalizeIdempotent(b);
      if IsUpperCase(y) || IsLowerCase(y) {
        assert NormalizeFirstName(y) == Capitalize(Capitalize(b));
      }
    }
  }
}
