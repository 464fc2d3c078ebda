/**
 * `src/modules/mail.py`, the rules around one Gmail message and the
 * Submissions sheet: the body text chosen from the MIME tree, the sender's
 * names, the clean-up of the answer, the digest filter, the header repair,
 * the keys already present, the latest timestamp, the boundary, and the
 * append with back-off on quota errors.
 */
module Mail {
  import opened Wrappers
  import opened Text
  import opened Sheet
  import opened Collections
  import Remote
  import Grading
  import FirstNames
  import LastNames

  // ---------------------------------------------------------------------
  // `_extract_plaintext`

  /** A Gmail message payload: its `mimeType` (if any), its `body.data` ("" when absent) and its `parts`. */
  datatype Payload = Payload(mimeType: Option<string>, data: string, parts: seq<Payload>)

  /**
   * The conversions the traversal applies: base64url-and-UTF-8 decoding of a
   * body, and the regular-expression `html_to_text`.
   */
  datatype Codecs = Codecs(decode: string -> string, htmlToText: string -> string)

  /** The decoded, stripped body data; "" when there is none. */
  function BodyText(c: Codecs, data: string): string {
    if data == "" then "" else Strip(c.decode(data))
  }

  predicate IsPlain(p: Payload) { p.mimeType == Some("text/plain") }
  predicate IsHtml(p: Payload) { p.mimeType == Some("text/html") }

  /** `_extract_plaintext(payload)` */
  function ExtractPlaintext(c: Codecs, p: Payload): string
    decreases p, 1, 0
  {
    if IsPlain(p) then BodyText(c, p.data)
    else if IsHtml(p) then c.htmlToText(BodyText(c, p.data))
    else
      var t := FirstPartText(c, p, 0);
      if t != "" then t else BodyText(c, p.data)
  }

  /** The loop over `payload["parts"]` from part `i`: the first non-empty text, or "". */
  function FirstPartText(c: Codecs, p: Payload, i: nat): (r: string)
    ensures r != "" ==> exists k :: (i <= k < |p.parts| && r == ExtractPlaintext(c, p.parts[k])
      && forall j :: i <= j < k ==> ExtractPlaintext(c, p.parts[j]) == "")
    ensures r == "" ==> forall k :: i <= k < |p.parts| ==> ExtractPlaintext(c, p.parts[k]) == ""
    decreases p, 0, |p.parts| - i
  {
    if i >= |p.parts| then ""
    else
      var t := ExtractPlaintext(c, p.parts[i]);
      if t != "" then t else FirstPartText(c, p, i + 1)
  }

  /**
   * The order in which a node is resolved: a text/plain node gives its decoded
   * body, a text/html node the conversion of its decoded body, any other node
   * the first part with non-empty text, and failing that its own decoded body.
   */
  lemma ExtractOrder(c: Codecs, p: Payload)
    ensures IsPlain(p) ==> ExtractPlaintext(c, p) == BodyText(c, p.data)
    ensures IsHtml(p) ==> ExtractPlaintext(c, p) == c.htmlToText(BodyText(c, p.data))
    ensures !IsPlain(p) && !IsHtml(p) ==>
      forall k :: 0 <= k < |p.parts| && ExtractPlaintext(c, p.parts[k]) != ""
        && (forall j :: 0 <= j < k ==> ExtractPlaintext(c, p.parts[j]) == "")
        ==> ExtractPlaintext(c, p) == ExtractPlaintext(c, p.parts[k])
    ensures !IsPlain(p) && !IsHtml(p) && (forall k :: 0 <= k < |p.parts| ==> ExtractPlaintext(c, p.parts[k]) == "")
      ==> ExtractPlaintext(c, p) == BodyText(c, p.data)
  {
    if !IsPlain(p) && !IsHtml(p) {
      forall k | 0 <= k < |p.parts| && ExtractPlaintext(c, p.parts[k]) != ""
        && (forall j :: 0 <= j < k ==> ExtractPlaintext(c, p.parts[j]) == "")
        ensures ExtractPlaintext(c, p) == ExtractPlaintext(c, p.parts[k])
      {
        FirstPartAt(c, p, k);
      }
    }
  }

  /** The parts loop returns the text of the first part whose text is non-empty. */
  lemma FirstPartAt(c: Codecs, p: Payload, k: nat)
    requires k < |p.parts| && ExtractPlaintext(c, p.parts[k]) != ""
    requires forall j :: 0 <= j < k ==> ExtractPlaintext(c, p.parts[j]) == ""
    ensures FirstPartText(c, p, 0) == ExtractPlaintext(c, p.parts[k])
  {
    var t := FirstPartText(c, p, 0);
    assert t != "";
    var k' :| 0 <= k' < |p.parts| && t == ExtractPlaintext(c, p.parts[k'])
      && forall j :: 0 <= j < k' ==> ExtractPlaintext(c, p.parts[j]) == "";
    assert !(k < k') && !(k' < k);
  }

  // ---------------------------------------------------------------------
  // `_parse_sender`

  /** `email.utils.parseaddr`: the display name and the address. */
  type AddressParser = string -> (string, string)

  /** `re.sub(r"[\"']", "", s)` */
  function DropQuotes(s: string): (r: string)
    ensures |r| <= |s|
    ensures forall i :: 0 <= i < |r| ==> r[i] != '"' && r[i] != '\''
    ensures (forall i :: 0 <= i < |s| ==> s[i] != '"' && s[i] != '\'') ==> r == s
    decreases |s|
  {
    if |s| == 0 then ""
    else (if s[0] == '"' || s[0] == '\'' then "" else [s[0]]) + DropQuotes(s[1..])
  }

  /** The length of the leading run of non-whitespace characters. */
  function WordLength(s: string): (k: nat)
    ensures k <= |s|
    ensures forall j :: 0 <= j < k ==> !IsSpace(s[j])
    ensures k < |s| ==> IsSpace(s[k])
    decreases |s|
  {
    if |s| == 0 || IsSpace(s[0]) then 0 else 1 + WordLength(s[1..])
  }

  /** `[p for p in re.split(r"\s+", s) if p]` */
  function Words(s: string): (r: seq<string>)
    ensures forall i :: 0 <= i < |r| ==> r[i] != ""
    ensures forall i, j :: 0 <= i < |r| && 0 <= j < |r[i]| ==> !IsSpace(r[i][j])
    decreases |s|
  {
    if |s| == 0 then []
    else if IsSpace(s[0]) then Words(s[1..])
    else
      var k := WordLength(s);
      [s[..k]] + Words(s[k..])
  }

  /** The characters of `s` that are not whitespace, in order. */
  function NonSpace(s: string): string
    decreases |s|
  {
    if |s| == 0 then "" else (if IsSpace(s[0]) then "" else [s[0]]) + NonSpace(s[1..])
  }

  function Concat(ws: seq<string>): string
    decreases |ws|
  {
    if |ws| == 0 then "" else ws[0] + Concat(ws[1..])
  }

  lemma {:induction false} NonSpaceAppend(a: string, b: string)
    ensures NonSpace(a + b) == NonSpace(a) + NonSpace(b)
    decreases |a|
  {
    if |a| > 0 {
      assert (a + b)[1..] == a[1..] + b;
      NonSpaceAppend(a[1..], b);
    } else {
      assert a + b == b;
    }
  }

  lemma {:induction false} NonSpaceOfWord(w: string)
    requires forall j :: 0 <= j < |w| ==> !IsSpace(w[j])
    ensures NonSpace(w) == w
    decreases |w|
  {
    if |w| > 0 {
      NonSpaceOfWord(w[1..]);
    }
  }

  /** Splitting on whitespace loses only the whitespace: the words put together are the non-space characters. */
  lemma {:induction false} WordsCoverText(s: string)
    ensures Concat(Words(s)) == NonSpace(s)
    decreases |s|
  {
    if |s| > 0 {
      if IsSpace(s[0]) {
        WordsCoverText(s[1..]);
      } else {
        var k := WordLength(s);
        WordsCoverText(s[k..]);
        assert s == s[..k] + s[k..];
        NonSpaceAppend(s[..k], s[k..]);
        NonSpaceOfWord(s[..k]);
        var ws := Words(s);
        assert ws == [s[..k]] + Words(s[k..]);
        assert ws[1..] == Words(s[k..]);
      }
    }
  }

  /** A submitter as `_parse_sender` derives them from the From header. */
  datatype Sender = Sender(first: string, lastInitial: string, email: string)

  /** The words of the display name, quotes removed. */
  function NameWords(parseAddr: AddressParser, from: string): seq<string> {
    Words(Strip(DropQuotes(parseAddr(from).0)))
  }

  /** `_parse_sender(from_header)` */
  function ParseSender(parseAddr: AddressParser, from: string): (r: Sender)
    ensures r.email == if parseAddr(from).1 != "" then parseAddr(from).1 else Strip(from)
    ensures r.email == "" <==> parseAddr(from).1 == "" && IsBlank(from)
    ensures var parts := NameWords(parseAddr, from);
      r.first == if |parts| > 0 then FirstNames.NormalizeFirstName(parts[0]) else ""
    ensures var parts := NameWords(parseAddr, from);
      r.lastInitial == LastNames.NormalizeLastInitial(if |parts| > 1 then parts[1] else "")
    ensures |r.lastInitial| <= 1 && '@' !in r.first
    ensures |NameWords(parseAddr, from)| <= 1 ==> r.lastInitial == ""
  {
    var name := parseAddr(from).0;
    var address := parseAddr(from).1;
    var email := if address != "" then address else Strip(from);
    var parts := NameWords(parseAddr, from);
    var first := if |parts| > 0 then FirstNames.NormalizeFirstName(parts[0]) else "";
    var last := LastNames.NormalizeLastInitial(if |parts| > 1 then parts[1] else "");
    StripEmptyIffBlank(from);
    StripEmptyIffBlank("");
    Sender(first, last, email)
  }

  // ---------------------------------------------------------------------
  // `_clean_answer`

  /** The length above which the cleaned answer is truncated. */
  const MaxAnswer: nat := 3000

  /** `re.search("^" + p, s, re.IGNORECASE)` for a literal `p` (ASCII case folding). */
  predicate PrefixIgnoreCase(s: string, p: string) {
    |p| <= |s| && Lower(s[..|p|]) == Lower(p)
  }

  predicate SuffixIgnoreCase(s: string, p: string) {
    |p| <= |s| && Lower(s[|s| - |p|..]) == Lower(p)
  }

  /** `^—+$`: a rule of em dashes. */
  predicate IsDashRule(s: string) {
    |s| > 0 && forall i :: 0 <= i < |s| ==> s[i] == '—'
  }

  /**
   * The cut patterns other than the signature separator, on a stripped line:
   * the mobile and Outlook footers, the reply header, a quoted From line, a
   * dash rule, and the Google Groups moderator notice.
   */
  predicate MatchesFooter(l: string) {
    PrefixIgnoreCase(l, "Sent from my iPhone")
    || PrefixIgnoreCase(l, "Sent from Yahoo Mail")
    || PrefixIgnoreCase(l, "Get Outlook for")
    || (|l| >= 11 && PrefixIgnoreCase(l, "On ") && SuffixIgnoreCase(l, " wrote:"))
    || (|l| >= 7 && PrefixIgnoreCase(l, "From: "))
    || IsDashRule(l)
    || PrefixIgnoreCase(l, "This message is being sent to you because you are a moderator of the group")
  }

  /** The cut test as written: `^-- $` is tried against the stripped line. */
  predicate IsCutLineAsWritten(ln: string) {
    MatchesFooter(Strip(ln)) || Strip(ln) == "-- "
  }

  /** The cut test with the signature separator "-- " recognised after stripping. */
  predicate IsCutLine(ln: string) {
    MatchesFooter(Strip(ln)) || Strip(ln) == "--"
  }

  /** The lines before the first cut line. */
  function KeptLines(lines: seq<string>, cut: string -> bool): (r: seq<string>)
    ensures |r| <= |lines| && r == lines[..|r|]
    ensures forall i :: 0 <= i < |r| ==> !cut(lines[i])
    ensures |r| < |lines| ==> cut(lines[|r|])
    decreases |lines|
  {
    if |lines| == 0 || cut(lines[0]) then []
    else [lines[0]] + KeptLines(lines[1..], cut)
  }

  /** The kept lines are the prefix up to any `n` that has no cut line before it and a cut line (or the end) at it. */
  lemma KeptLinesAt(lines: seq<string>, cut: string -> bool, n: nat)
    requires n <= |lines|
    requires forall i :: 0 <= i < n ==> !cut(lines[i])
    requires n < |lines| ==> cut(lines[n])
    ensures KeptLines(lines, cut) == lines[..n]
  {
  }

  /** The truncation of an over-long answer to 3000 characters and an ellipsis. */
  function Truncated(s: string): (r: string)
    ensures |r| <= MaxAnswer + 1
    ensures |s| <= MaxAnswer ==> r == s
  {
    if |s| > MaxAnswer then
      RStripSpec(s[..MaxAnswer]);
      RStrip(s[..MaxAnswer]) + "…"
    else s
  }

  /**
   * An over-long answer becomes its first 3000 characters without the
   * whitespace at their end, followed by an ellipsis.
   */
  lemma TruncatedSpec(s: string)
    requires |s| > MaxAnswer
    ensures var r := Truncated(s);
      |r| > 0 && r[|r| - 1] == '…' && r[..|r| - 1] == s[..|r| - 1] && IsBlank(s[|r| - 1..MaxAnswer])
  {
    var head := s[..MaxAnswer];
    RStripSpec(head);
    var t := RStrip(head);
    var r := t + "…";
    assert r[..|r| - 1] == t;
    var n := |t|;
    assert forall i :: 0 <= i < MaxAnswer - n ==> s[n..MaxAnswer][i] == head[n + i];
  }

  /** `_clean_answer(body_text)` with the cut test `cut`. */
  function CleanWith(body: string, cut: string -> bool): string {
    if body == "" then "" else Truncated(Strip(Join("\n", KeptLines(SplitLines(body), cut))))
  }

  /**
   * `_clean_answer(body_text)` as written: the body up to its first cut line
   * (the separator pattern `^-- $` tried against the stripped line), stripped
   * and truncated.
   */
  function CleanedAnswer(body: string): (r: string)
    ensures body == "" ==> r == ""
    ensures |r| <= MaxAnswer + 1
  {
    CleanWith(body, IsCutLineAsWritten)
  }

  /** `_clean_answer` with the signature separator "-- " recognised after stripping. */
  function IntendedCleanAnswer(body: string): (r: string)
    ensures body == "" ==> r == ""
    ensures |r| <= MaxAnswer + 1
  {
    CleanWith(body, IsCutLine)
  }

  /** Two cut tests that agree on every line keep the same lines. */
  lemma {:induction false} KeptLinesSame(lines: seq<string>, c1: string -> bool, c2: string -> bool)
    requires forall i :: 0 <= i < |lines| ==> (c1(lines[i]) <==> c2(lines[i]))
    ensures KeptLines(lines, c1) == KeptLines(lines, c2)
    decreases |lines|
  {
    if |lines| > 0 && !c1(lines[0]) {
      var tail := lines[1..];
      assert forall i :: 0 <= i < |tail| ==> tail[i] == lines[i + 1];
      KeptLinesSame(tail, c1, c2);
    }
  }

  /** The two cut tests differ only on a line that strips to the separator "--". */
  lemma CutLinesDiffer(ln: string)
    ensures IsCutLine(ln) <==> IsCutLineAsWritten(ln) || Strip(ln) == "--"
  {
    SignatureNeverCutAsWritten(ln);
  }

  /**
   * The separator pattern is the only difference: a body with no line that
   * strips to "--" is cleaned the same way by both.
   */
  lemma SeparatorOnlyDifference(body: string)
    requires forall ln :: ln in SplitLines(body) ==> Strip(ln) != "--"
    ensures CleanedAnswer(body) == IntendedCleanAnswer(body)
  {
    var lines := SplitLines(body);
    forall i | 0 <= i < |lines|
      ensures IsCutLineAsWritten(lines[i]) <==> IsCutLine(lines[i])
    {
      CutLinesDiffer(lines[i]);
    }
    KeptLinesSame(lines, IsCutLineAsWritten, IsCutLine);
  }

  /** The loop of `_clean_answer`: lines are kept until the first cut line. */
  method CleanAnswer(body: string) returns (cleaned: string)
    ensures cleaned == CleanedAnswer(body)
  {
    if body == "" {
      return "";
    }
    var lines := SplitLines(body);
    var out: seq<string> := [];
    var i := 0;
    while i < |lines|
      invariant 0 <= i <= |lines|
      invariant out == lines[..i]
      invariant forall j :: 0 <= j < i ==> !IsCutLineAsWritten(lines[j])
    {
      if IsCutLineAsWritten(lines[i]) {
        break;
      }
      out := out + [lines[i]];
      i := i + 1;
    }
    KeptLinesAt(lines, IsCutLineAsWritten, i);
    cleaned := Truncated(Strip(Join("\n", out)));
  }

  /** A stripped line never ends in a space, so the pattern `^-- $` as written can never cut. */
  lemma SignatureNeverCutAsWritten(ln: string)
    ensures Strip(ln) != "-- "
    ensures IsCutLineAsWritten(ln) <==> MatchesFooter(Strip(ln))
  {
    StripSpec(ln);
    var s := "-- ";
    assert IsSpace(s[|s| - 1]);
  }

  lemma ShortLineNoFooter(l: string)
    requires 0 < |l| <= 6 && l[0] != '—'
    ensures !MatchesFooter(l)
  {
  }

  /** A line without breaks followed by "\n" and more text splits off as the first line. */
  lemma SplitFirstLine(line: string, rest: string)
    requires forall j :: 0 <= j < |line| ==> !IsLineBreak(line[j])
    requires rest != ""
    ensures SplitLines(line + "\n" + rest) == [line] + SplitLines(rest)
  {
    var s := line + "\n" + rest;
    var k := FirstLineBreak(s);
    assert s[|line|] == '\n';
    assert forall j :: 0 <= j < |line| ==> s[j] == line[j];
    assert k == |line|;
    assert s[..k] == line;
    assert s[k + 1..] == rest;
  }

  /** A non-empty text without breaks is one line. */
  lemma SplitSingle(c: string)
    requires c != "" && forall j :: 0 <= j < |c| ==> !IsLineBreak(c[j])
    ensures SplitLines(c) == [c]
  {
    assert FirstLineBreak(c) == |c|;
  }

  /** Three lines joined by "\n" split back into those lines. */
  lemma SplitThree(a: string, b: string, c: string)
    requires forall j :: 0 <= j < |a| ==> !IsLineBreak(a[j])
    requires forall j :: 0 <= j < |b| ==> !IsLineBreak(b[j])
    requires c != "" && forall j :: 0 <= j < |c| ==> !IsLineBreak(c[j])
    ensures SplitLines(a + "\n" + b + "\n" + c) == [a, b, c]
  {
    var x, bc := a + "\n", b + "\n" + c;
    SplitSingle(c);
    SplitFirstLine(b, c);
    SplitFirstLine(a, bc);
    AppendAssoc(x, b, "\n");
    AppendAssoc(x, b + "\n", c);
    assert [a] + ([b] + [c]) == [a, b, c];
  }

  lemma SplitExample()
    ensures SplitLines("ans\n-- \nsig") == ["ans", "-- ", "sig"]
  {
    var body := "ans" + "\n" + "-- " + "\n" + "sig";
    assert body == "ans\n-- \nsig";
    SplitThree("ans", "-- ", "sig");
  }

  lemma JoinExample()
    ensures Join("\n", ["ans", "-- ", "sig"]) == "ans\n-- \nsig"
  {
    var lines := ["ans", "-- ", "sig"];
    assert lines[1..] == ["-- ", "sig"];
    assert lines[1..][1..] == ["sig"];
  }

  lemma StripSeparator()
    ensures Strip("-- ") == "--"
  {
    assert LStrip("-- ") == "-- ";
    assert "-- "[..2] == "--";
    assert RStrip("--") == "--";
  }

  lemma ExampleLines()
    ensures !IsCutLineAsWritten("ans") && !IsCutLineAsWritten("-- ") && !IsCutLineAsWritten("sig")
    ensures !IsCutLine("ans") && IsCutLine("-- ")
  {
    StripOfStripped("ans");
    StripOfStripped("sig");
    StripSeparator();
    ShortLineNoFooter("ans");
    ShortLineNoFooter("sig");
    ShortLineNoFooter("--");
  }

  lemma KeptThree(a: string, b: string, c: string, cut: string -> bool)
    requires !cut(a) && !cut(b) && !cut(c)
    ensures KeptLines([a, b, c], cut) == [a, b, c]
  {
    var lines := [a, b, c];
    assert lines[1..] == [b, c] && lines[1..][1..] == [c] && lines[1..][1..][1..] == [];
  }

  lemma KeptFirst(a: string, b: string, c: string, cut: string -> bool)
    requires !cut(a) && cut(b)
    ensures KeptLines([a, b, c], cut) == [a]
  {
    var lines := [a, b, c];
    assert lines[1..] == [b, c];
  }

  /** The separator line does not cut as written, so the whole reply is kept. */
  lemma AsWrittenKeepsSignature()
    ensures CleanedAnswer("ans\n-- \nsig") == "ans\n-- \nsig"
  {
    var body := "ans\n-- \nsig";
    SplitExample();
    ExampleLines();
    KeptThree("ans", "-- ", "sig", IsCutLineAsWritten);
    JoinExample();
    assert Join("\n", KeptLines(SplitLines(body), IsCutLineAsWritten)) == body;
    assert body[0] == 'a' && body[|body| - 1] == 'g';
    StripOfStripped(body);
    assert Truncated(body) == body;
  }

  /** With the separator recognised, only the text above it is kept. */
  lemma CorrectedDropsSignature()
    ensures IntendedCleanAnswer("ans\n-- \nsig") == "ans"
  {
    SplitExample();
    ExampleLines();
    KeptFirst("ans", "-- ", "sig", IsCutLine);
    assert Join("\n", ["ans"]) == "ans";
    StripOfStripped("ans");
  }

  // ---------------------------------------------------------------------
  // `_looks_like_digest_or_moderator`

  /**
   * A moderator report or digest: by its subject, by its sender, or by the
   * Google Groups approval link in its body, all compared in lower case.
   */
  predicate LooksLikeDigest(subject: string, fromEmail: string, body: string) {
    var s := Lower(subject);
    var f := Lower(fromEmail);
    Contains(s, "moderator's spam report") || Contains(s, "digest")
    || Contains(f, "noreply-spamdigest") || Contains(f, "via riddler")
    || Contains(f, "no-reply") || Contains(f, "noreply")
    || (body != "" && Contains(Lower(body), "approve: https://groups.google.com"))
  }

  /** Lower-casing twice is lower-casing once. */
  lemma LowerTwice(s: string)
    ensures Lower(Lower(s)) == Lower(s)
  {
    forall i | 0 <= i < |s|
      ensures Lower(Lower(s))[i] == Lower(s)[i]
    {
      var c := s[i];
      assert Lower(s)[i] == LowerChar(c);
    }
  }

  /** The filter ignores case: lower-casing the subject, the sender and the body changes no verdict. */
  lemma DigestIgnoresCase(subject: string, fromEmail: string, body: string)
    ensures LooksLikeDigest(Lower(subject), Lower(fromEmail), Lower(body)) == LooksLikeDigest(subject, fromEmail, body)
  {
    LowerTwice(subject);
    LowerTwice(fromEmail);
    LowerTwice(body);
    assert |Lower(body)| == |body|;
  }

  // ---------------------------------------------------------------------
  // `_ensure_submission_headers`

  /** The columns the Submissions sheet must have, in order. */
  const NeededHeaders: seq<string> :=
    ["Game", "Timestamp", "First Name", "Last Name Initial", "Email",
     "Answer", "AI Grade", "AI Confidence", "Override"]

  /** The columns of `cols` that are not headers, in order. */
  function MissingHeaders(headers: seq<string>, cols: seq<string>): seq<string>
    decreases |cols|
  {
    if |cols| == 0 then []
    else
      var last := cols[|cols| - 1];
      MissingHeaders(headers, cols[..|cols| - 1]) + (if last in headers then [] else [last])
  }

  /** A column is missing exactly when it is one of `cols` and not a header. */
  lemma {:induction false} MissingMembers(headers: seq<string>, cols: seq<string>)
    ensures forall c :: c in MissingHeaders(headers, cols) <==> c in cols && c !in headers
    decreases |cols|
  {
    if |cols| > 0 {
      var n := |cols| - 1;
      MissingMembers(headers, cols[..n]);
      assert cols == cols[..n] + [cols[n]];
    }
  }

  /** The header row after the repair. */
  function RepairedHeaders(headers: seq<string>): seq<string> {
    headers + MissingHeaders(headers, NeededHeaders)
  }

  lemma NeededDistinct()
    ensures forall i, j :: 0 <= i < j < |NeededHeaders| ==> NeededHeaders[i] != NeededHeaders[j]
  {
  }

  /** One more column: it is missing after the others exactly when it is not a header, and it is not among the earlier ones. */
  lemma MissingStep(headers: seq<string>, cols: seq<string>, k: nat)
    requires k < |cols|
    requires forall i, j :: 0 <= i < j < |cols| ==> cols[i] != cols[j]
    ensures MissingHeaders(headers, cols[..k + 1]) ==
      MissingHeaders(headers, cols[..k]) + (if cols[k] in headers then [] else [cols[k]])
    ensures cols[k] !in MissingHeaders(headers, cols[..k])
    ensures cols[k] in headers + MissingHeaders(headers, cols[..k]) <==> cols[k] in headers
  {
    assert cols[..k + 1][..k] == cols[..k];
    assert cols[..k + 1][k] == cols[k];
    assert forall i :: 0 <= i < k ==> cols[..k][i] != cols[k];
    MissingMembers(headers, cols[..k]);
  }

  /** The loop of `_ensure_submission_headers`: each column of `cols` not yet a header is appended. */
  method AppendMissing(headers: seq<string>, cols: seq<string>) returns (repaired: seq<string>, changed: bool)
    requires forall i, j :: 0 <= i < j < |cols| ==> cols[i] != cols[j]
    ensures repaired == headers + MissingHeaders(headers, cols)
    ensures changed <==> |MissingHeaders(headers, cols)| > 0
  {
    repaired := headers;
    changed := false;
    ghost var added: seq<string> := [];
    var k := 0;
    while k < |cols|
      invariant 0 <= k <= |cols|
      invariant added == MissingHeaders(headers, cols[..k])
      invariant repaired == headers + added
      invariant changed <==> |added| > 0
    {
      var col := cols[k];
      MissingStep(headers, cols, k);
      assert col in repaired <==> col in headers;
      if col !in repaired {
        assert repaired + [col] == headers + (added + [col]);
        repaired := repaired + [col];
        added := added + [col];
        changed := true;
      }
      k := k + 1;
    }
    assert cols[..k] == cols;
  }

  /**
   * The repair keeps the old headers as a prefix, leaves every needed column
   * present, and a second repair adds nothing.
   */
  lemma RepairSpec(headers: seq<string>)
    ensures |RepairedHeaders(headers)| >= |headers| && RepairedHeaders(headers)[..|headers|] == headers
    ensures forall c :: c in NeededHeaders ==> c in RepairedHeaders(headers)
    ensures MissingHeaders(RepairedHeaders(headers), NeededHeaders) == []
  {
    var r := RepairedHeaders(headers);
    var m := MissingHeaders(headers, NeededHeaders);
    MissingMembers(headers, NeededHeaders);
    assert r[..|headers|] == headers;
    forall c | c in NeededHeaders ensures c in r {
      if c !in headers {
        assert c in m;
      }
    }
    MissingNone(r, NeededHeaders);
  }

  lemma {:induction false} MissingNone(headers: seq<string>, cols: seq<string>)
    requires forall c :: c in cols ==> c in headers
    ensures MissingHeaders(headers, cols) == []
    decreases |cols|
  {
    if |cols| > 0 {
      var n := |cols| - 1;
      assert cols[n] in cols;
      forall c | c in cols[..n] ensures c in headers {
        assert c in cols;
      }
      MissingNone(headers, cols[..n]);
    }
  }

  /** The header write, when a column was missing. */
  function HeaderWrite(g: Grid): (r: Option<WriteOp>)
  {
    var h := RowValues(g, 1);
    if |MissingHeaders(h, NeededHeaders)| > 0 then Some(WriteOp(1, 1, [RepairedHeaders(h)])) else None
  }

  /** `_ensure_submission_headers(ws_sub)`: row 1 is rewritten only when a column was added. */
  method EnsureSubmissionHeaders(sub: Worksheet) returns (headers: seq<string>)
    modifies sub
    ensures headers == RepairedHeaders(RowValues(old(sub.grid), 1))
    ensures AfterOptionalWrite(old(sub.grid), old(sub.writes), HeaderWrite(old(sub.grid)), sub.grid, sub.writes)
  {
    NeededDistinct();
    var changed;
    headers, changed := AppendMissing(RowValues(sub.grid, 1), NeededHeaders);
    if changed {
      sub.Update(1, 1, [headers]);
    }
  }

  // ---------------------------------------------------------------------
  // `_load_existing_keys`

  /** The duplicate-detection key of a submission: game, lower-cased email, timestamp, answer. */
  datatype Key = Key(game: string, email: string, ts: string, answer: string)

  /** `{h: i for i, h in enumerate(headers)}[h]`: the last column named `h`. */
  function LastIndexOf(headers: seq<string>, h: string): (i: nat)
    requires h in headers
    ensures i < |headers| && headers[i] == h
    ensures forall j :: i < j < |headers| ==> headers[j] != h
    decreases |headers|
  {
    if headers[|headers| - 1] == h then |headers| - 1
    else
      assert h in headers[..|headers| - 1];
      LastIndexOf(headers[..|headers| - 1], h)
  }

  /** The cell in column `i` of a row padded with "". */
  function Cell(row: seq<string>, i: nat): string {
    if i < |row| then row[i] else ""
  }

  /** `rows[2:]`: the rows below the two header rows. */
  function DataRows(g: Grid): Grid {
    if |g| >= 2 then g[2..] else []
  }

  predicate HasKeyColumns(headers: seq<string>) {
    "Game" in headers && "Timestamp" in headers && "Email" in headers && "Answer" in headers
  }

  /** The key a stored row contributes, when all four of its fields are non-empty. */
  function RowKey(row: seq<string>, headers: seq<string>): (r: Option<Key>)
    requires HasKeyColumns(headers)
    ensures r.Some? ==> r.value.game != "" && r.value.email != "" && r.value.ts != "" && r.value.answer != ""
  {
    var game := Strip(Cell(row, LastIndexOf(headers, "Game")));
    var ts := Strip(Cell(row, LastIndexOf(headers, "Timestamp")));
    var email := Lower(Strip(Cell(row, LastIndexOf(headers, "Email"))));
    var ans := Strip(Cell(row, LastIndexOf(headers, "Answer")));
    if game != "" && ts != "" && email != "" && ans != "" then Some(Key(game, email, ts, ans)) else None
  }

  /** The set `_load_existing_keys` builds from `rows`. */
  function ExistingKeys(rows: Grid, headers: seq<string>): set<Key>
    requires HasKeyColumns(headers)
  {
    Collected(rows, (row: seq<string>) => RowKey(row, headers))
  }

  /** A key is present exactly when some row carries it. */
  lemma ExistingKeysSpec(rows: Grid, headers: seq<string>, k: Key)
    requires HasKeyColumns(headers)
    ensures k in ExistingKeys(rows, headers) <==> exists i :: 0 <= i < |rows| && RowKey(rows[i], headers) == Some(k)
  {
    CollectedSpec(rows, (row: seq<string>) => RowKey(row, headers), k);
  }

  /** `_load_existing_keys(ws_sub, headers)`: the loop over the rows from row 3 on. */
  method LoadExistingKeys(sub: Worksheet, headers: seq<string>) returns (keys: set<Key>)
    requires HasKeyColumns(headers)
    ensures keys == ExistingKeys(DataRows(sub.grid), headers)
  {
    var rows := DataRows(sub.grid);
    keys := {};
    var i := 0;
    while i < |rows|
      invariant 0 <= i <= |rows|
      invariant keys == ExistingKeys(rows[..i], headers)
    {
      assert rows[..i + 1][..i] == rows[..i];
      var k := RowKey(rows[i], headers);
      if k.Some? {
        keys := keys + {k.value};
      }
      i := i + 1;
    }
    assert rows[..i] == rows;
  }

  // ---------------------------------------------------------------------
  // `_max_timestamp_for_game` and the boundary

  /** A timestamp read from the sheet: the parsed time and the cell's text. */
  datatype Stamp = Stamp(at: Grading.Time, raw: string)

  /** The timestamp a stored row contributes for `game`, if any. */
  function RowStamp(row: seq<string>, gi: nat, ti: nat, game: string, parse: Grading.DateParser): Option<Stamp> {
    if |row| <= ti then None
    else if Lower(Strip(Cell(row, gi))) != Lower(Strip(game)) then None
    else
      var raw := Strip(row[ti]);
      if raw == "" then None
      else match parse(raw)
        case None => None
        case Some(t) => Some(Stamp(t, raw))
  }

  /** The running maximum of the loop over `rows`: a later row replaces it only with a strictly later time. */
  function MaxStamp(rows: Grid, f: seq<string> -> Option<Stamp>): Option<Stamp>
    decreases |rows|
  {
    if |rows| == 0 then None
    else
      var prev := MaxStamp(rows[..|rows| - 1], f);
      var s := f(rows[|rows| - 1]);
      if s.Some? && (prev.None? || s.value.at > prev.value.at) then s else prev
  }

  /** The maximum is `None` exactly when no row has a stamp. */
  lemma {:induction false} MaxStampNone(rows: Grid, f: seq<string> -> Option<Stamp>)
    ensures MaxStamp(rows, f).None? <==> forall i :: 0 <= i < |rows| ==> f(rows[i]).None?
    decreases |rows|
  {
    if |rows| > 0 {
      var n := |rows| - 1;
      MaxStampNone(rows[..n], f);
      assert forall i :: 0 <= i < n ==> rows[..n][i] == rows[i];
    }
  }

  /** No row has a later stamp than the maximum. */
  lemma {:induction false} MaxStampBound(rows: Grid, f: seq<string> -> Option<Stamp>)
    ensures MaxStamp(rows, f).Some? ==> forall i :: 0 <= i < |rows| && f(rows[i]).Some? ==>
      f(rows[i]).value.at <= MaxStamp(rows, f).value.at
    decreases |rows|
  {
    if |rows| > 0 {
      var n := |rows| - 1;
      MaxStampBound(rows[..n], f);
      MaxStampNone(rows[..n], f);
      assert forall i :: 0 <= i < n ==> rows[..n][i] == rows[i];
    }
  }

  /** The maximum is the stamp of the first row reaching the latest time. */
  lemma {:induction false} MaxStampFirst(rows: Grid, f: seq<string> -> Option<Stamp>)
    ensures MaxStamp(rows, f).Some? ==> exists i :: (0 <= i < |rows| && f(rows[i]) == MaxStamp(rows, f)
      && forall j :: 0 <= j < i && f(rows[j]).Some? ==> f(rows[j]).value.at < MaxStamp(rows, f).value.at)
    decreases |rows|
  {
    if |rows| > 0 {
      var n := |rows| - 1;
      var front := rows[..n];
      MaxStampFirst(front, f);
      MaxStampBound(front, f);
      MaxStampNone(front, f);
      assert forall i :: 0 <= i < n ==> front[i] == rows[i];
      var prev := MaxStamp(front, f);
      var s := f(rows[n]);
      if s.Some? && (prev.None? || s.value.at > prev.value.at) {
        assert forall j :: 0 <= j < n && f(rows[j]).Some? ==> f(rows[j]).value.at < s.value.at;
      } else if prev.Some? {
        var i :| 0 <= i < n && f(front[i]) == prev
          && forall j :: 0 <= j < i && f(front[j]).Some? ==> f(front[j]).value.at < prev.value.at;
        assert f(rows[i]) == prev;
      }
    }
  }

  /** `_max_timestamp_for_game`: `None` also when the Game or Timestamp column is missing. */
  function LatestStamp(g: Grid, headers: seq<string>, game: string, parse: Grading.DateParser): Option<Stamp> {
    if "Game" !in headers || "Timestamp" !in headers then None
    else
      var gi := LastIndexOf(headers, "Game");
      var ti := LastIndexOf(headers, "Timestamp");
      MaxStamp(DataRows(g), (row: seq<string>) => RowStamp(row, gi, ti, game, parse))
  }

  /**
   * `_max_timestamp_for_game` is `None` exactly when no row below the headers
   * has a parsable timestamp for the game; otherwise it is a latest such
   * timestamp, the first in row order.
   */
  lemma LatestStampSpec(g: Grid, headers: seq<string>, game: string, parse: Grading.DateParser)
    requires "Game" in headers && "Timestamp" in headers
    ensures var gi := LastIndexOf(headers, "Game");
      var ti := LastIndexOf(headers, "Timestamp");
      var rows := DataRows(g);
      var m := LatestStamp(g, headers, game, parse);
      (m.None? <==> forall i :: 0 <= i < |rows| ==> RowStamp(rows[i], gi, ti, game, parse).None?)
      && (m.Some? ==> forall i :: 0 <= i < |rows| && RowStamp(rows[i], gi, ti, game, parse).Some? ==>
        RowStamp(rows[i], gi, ti, game, parse).value.at <= m.value.at)
      && (m.Some? ==> exists i :: (0 <= i < |rows| && RowStamp(rows[i], gi, ti, game, parse) == m
        && forall j :: 0 <= j < i && RowStamp(rows[j], gi, ti, game, parse).Some? ==>
          RowStamp(rows[j], gi, ti, game, parse).value.at < m.value.at))
  {
    var gi := LastIndexOf(headers, "Game");
    var ti := LastIndexOf(headers, "Timestamp");
    var f := (row: seq<string>) => RowStamp(row, gi, ti, game, parse);
    MaxStampNone(DataRows(g), f);
    MaxStampBound(DataRows(g), f);
    MaxStampFirst(DataRows(g), f);
  }

  /** The scan of `_max_timestamp_for_game` over the rows from row 3 on. */
  method MaxTimestampForGame(sub: Worksheet, headers: seq<string>, game: string, parse: Grading.DateParser)
    returns (latest: Option<Stamp>)
    ensures latest == LatestStamp(sub.grid, headers, game, parse)
  {
    if "Game" !in headers || "Timestamp" !in headers {
      return None;
    }
    var gi := LastIndexOf(headers, "Game");
    var ti := LastIndexOf(headers, "Timestamp");
    var f := (row: seq<string>) => RowStamp(row, gi, ti, game, parse);
    var rows := DataRows(sub.grid);
    latest := None;
    var i := 0;
    while i < |rows|
      invariant 0 <= i <= |rows|
      invariant latest == MaxStamp(rows[..i], f)
    {
      assert rows[..i + 1][..i] == rows[..i];
      var s := RowStamp(rows[i], gi, ti, game, parse);
      if s.Some? && (latest.None? || s.value.at > latest.value.at) {
        latest := s;
      }
      i := i + 1;
    }
    assert rows[..i] == rows;
  }

  /** 2025-08-26 06:49:00 and 06:49:04 on the sheet's naive clock, in seconds. */
  const RiddlerCutoff: Grading.Time := 1756190940
  const ScramblerCutoff: Grading.Time := 1756190944

  /** `_hardcoded_cutoff_dt_for_game(game_name)` */
  function HardcodedCutoff(game: string): (r: Option<Grading.Time>)
    ensures r.Some? <==> Lower(Strip(game)) == "riddler" || Lower(Strip(game)) == "scrambler"
  {
    var g := Lower(Strip(game));
    if g == "riddler" then Some(RiddlerCutoff)
    else if g == "scrambler" then Some(ScramblerCutoff)
    else None
  }

  /** The only-new boundary: the later of the sheet's latest time and the fixed cutoff, whichever exist. */
  function Boundary(lastSeen: Option<Grading.Time>, hard: Option<Grading.Time>): (r: Option<Grading.Time>)
    ensures r.None? <==> lastSeen.None? && hard.None?
    ensures r.Some? ==> (lastSeen.Some? ==> lastSeen.value <= r.value) && (hard.Some? ==> hard.value <= r.value)
    ensures r.Some? ==> lastSeen == Some(r.value) || hard == Some(r.value)
  {
    var b := lastSeen;
    if hard.Some? then
      (if b.Some? then Some(if b.value >= hard.value then b.value else hard.value) else hard)
    else b
  }

  // ---------------------------------------------------------------------
  // `_append_rows_with_backoff`

  /** `"429" in str(e) or "Quota exceeded" in str(e)` for a gspread `APIError`. */
  predicate IsQuotaError(e: Remote.Exc) {
    e.ApiError? && (Contains(e.message, "429") || Contains(e.message, "Quota exceeded"))
  }

  /** What the append returns or raises: True, False, or the exception it lets through. */
  datatype AppendResult = Appended | GaveUp | Failed(exc: Remote.Exc)

  /** The attempts made, the result, and the sleeps between them. */
  datatype BackoffTrace = BackoffTrace(result: AppendResult, attempts: nat, sleeps: seq<nat>)

  /**
   * The retry loop from attempt `a` with the current delay `delay`; attempt
   * `a` of `append_rows` raises `tryAppend(a)` or, when that is `None`, succeeds.
   */
  function BackoffFrom(tryAppend: nat -> Option<Remote.Exc>, retries: nat, a: nat, delay: nat): BackoffTrace
    decreases retries - a
  {
    if a >= retries then BackoffTrace(GaveUp, a, [])
    else match tryAppend(a)
      case None => BackoffTrace(Appended, a + 1, [])
      case Some(e) =>
        if IsQuotaError(e) then
          var t := BackoffFrom(tryAppend, retries, a + 1, 2 * delay);
          t.(sleeps := [delay] + t.sleeps)
        else BackoffTrace(Failed(e), a + 1, [])
  }

  /** Attempt `a` raised a quota error. */
  predicate QuotaAt(tryAppend: nat -> Option<Remote.Exc>, a: nat) {
    tryAppend(a).Some? && IsQuotaError(tryAppend(a).value)
  }

  /**
   * From attempt `a`: at most `retries` attempts in all, and one sleep per
   * quota error, that is after every attempt but a successful or failing last one.
   */
  lemma {:induction false} BackoffAttempts(tryAppend: nat -> Option<Remote.Exc>, retries: nat, a: nat, delay: nat)
    requires a <= retries
    ensures var t := BackoffFrom(tryAppend, retries, a, delay);
      a <= t.attempts <= retries
      && (t.result == GaveUp ==> t.attempts == retries && |t.sleeps| == retries - a)
      && (t.result != GaveUp ==> t.attempts > a && |t.sleeps| == t.attempts - a - 1)
    decreases retries - a
  {
    if a < retries && QuotaAt(tryAppend, a) {
      BackoffAttempts(tryAppend, retries, a + 1, 2 * delay);
    }
  }

  /** A quota error on attempt `a` sleeps `delay`, then carries on from the next attempt with the delay doubled. */
  lemma BackoffQuotaStep(tryAppend: nat -> Option<Remote.Exc>, retries: nat, a: nat, delay: nat)
    requires a < retries && QuotaAt(tryAppend, a)
    ensures BackoffFrom(tryAppend, retries, a, delay).sleeps == [delay] + BackoffFrom(tryAppend, retries, a + 1, 2 * delay).sleeps
  {
  }

  /** `[delay, 2 * delay, 4 * delay, ...]`, `n` long: the sleeps of `n` quota errors in a row. */
  function Doubling(delay: nat, n: nat): (r: seq<nat>)
    ensures |r| == n
    decreases n
  {
    if n == 0 then [] else [delay] + Doubling(2 * delay, n - 1)
  }

  /** Sleep `k` (0-based) of the doubling is `delay * 2 ** k`. */
  lemma {:induction false} DoublingAt(delay: nat, n: nat, k: nat)
    requires k < n
    ensures Doubling(delay, n)[k] == delay * Pow2(k)
    decreases n
  {
    if k > 0 {
      DoublingAt(2 * delay, n - 1, k - 1);
      DoubledPow2(delay, k - 1);
    }
  }

  /** The sleeps double from `delay` on, and each follows a quota error of the attempt it is counted from. */
  lemma {:induction false} BackoffSleeps(tryAppend: nat -> Option<Remote.Exc>, retries: nat, a: nat, delay: nat)
    ensures var t := BackoffFrom(tryAppend, retries, a, delay);
      t.sleeps == Doubling(delay, |t.sleeps|)
      && forall k :: a <= k < a + |t.sleeps| ==> QuotaAt(tryAppend, k)
    decreases retries - a
  {
    if a < retries && QuotaAt(tryAppend, a) {
      BackoffSleeps(tryAppend, retries, a + 1, 2 * delay);
      BackoffQuotaStep(tryAppend, retries, a, delay);
    }
  }

  /** The loop gives up exactly when every remaining attempt hits the quota. */
  lemma {:induction false} BackoffGivesUp(tryAppend: nat -> Option<Remote.Exc>, retries: nat, a: nat, delay: nat)
    ensures BackoffFrom(tryAppend, retries, a, delay).result == GaveUp <==>
      forall k :: a <= k < retries ==> QuotaAt(tryAppend, k)
    decreases retries - a
  {
    if a < retries {
      if QuotaAt(tryAppend, a) {
        BackoffGivesUp(tryAppend, retries, a + 1, 2 * delay);
      } else {
        assert !QuotaAt(tryAppend, a);
      }
    }
  }

  /** It stops at the first success, or at the first error that is not a quota error, which it lets through. */
  lemma {:induction false} BackoffStops(tryAppend: nat -> Option<Remote.Exc>, retries: nat, a: nat, delay: nat)
    ensures var t := BackoffFrom(tryAppend, retries, a, delay);
      (t.result == Appended ==> t.attempts >= 1 && tryAppend(t.attempts - 1).None?)
      && (t.result.Failed? ==> (t.attempts >= 1 && tryAppend(t.attempts - 1) == Some(t.result.exc)
        && !IsQuotaError(t.result.exc)))
    decreases retries - a
  {
    if a < retries && QuotaAt(tryAppend, a) {
      BackoffStops(tryAppend, retries, a + 1, 2 * delay);
    }
  }

  /** The trace with `pre` slept before it. */
  function AfterSleeps(pre: seq<nat>, t: BackoffTrace): BackoffTrace {
    t.(sleeps := pre + t.sleeps)
  }

  /** `_append_rows_with_backoff(ws_sub, rows, retries, initial_delay)` */
  method AppendRowsWithBackoff(sub: Worksheet, rows: Grid, retries: nat, initialDelay: nat,
                               tryAppend: nat -> Option<Remote.Exc>, clock: Remote.Clock)
    returns (result: AppendResult)
    modifies sub, clock
    ensures |rows| == 0 ==> (result == Appended && sub.grid == old(sub.grid) && sub.writes == old(sub.writes)
      && clock.now == old(clock.now))
    ensures |rows| > 0 ==> var t := BackoffFrom(tryAppend, retries, 0, initialDelay);
      result == t.result && clock.now == old(clock.now) + Total(t.sleeps) as real
      && (result == Appended ==> (sub.grid == old(sub.grid) + rows
        && sub.writes == old(sub.writes) + [WriteOp(|old(sub.grid)| + 1, 1, rows)]))
      && (result != Appended ==> sub.grid == old(sub.grid) && sub.writes == old(sub.writes))
  {
    if |rows| == 0 {
      return Appended;
    }
    var delay := initialDelay;
    var attempt := 0;
    ghost var slept: seq<nat> := [];
    while attempt < retries
      invariant 0 <= attempt <= retries
      invariant BackoffFrom(tryAppend, retries, 0, initialDelay) == AfterSleeps(slept, BackoffFrom(tryAppend, retries, attempt, delay))
      invariant clock.now == old(clock.now) + Total(slept) as real
      invariant sub.grid == old(sub.grid) && sub.writes == old(sub.writes)
    {
      var raised := tryAppend(attempt);
      if raised.None? {
        assert BackoffFrom(tryAppend, retries, attempt, delay) == BackoffTrace(Appended, attempt + 1, []);
        assert slept + [] == slept;
        sub.AppendRows(rows);
        return Appended;
      }
      if !IsQuotaError(raised.value) {
        assert BackoffFrom(tryAppend, retries, attempt, delay) == BackoffTrace(Failed(raised.value), attempt + 1, []);
        assert slept + [] == slept;
        return Failed(raised.value);
      }
      BackoffStep(tryAppend, retries, attempt, delay, slept);
      TotalSnoc(slept, delay);
      clock.Sleep(delay as real);
      slept := slept + [delay];
      delay := 2 * delay;
      attempt := attempt + 1;
    }
    assert slept + [] == slept;
    return GaveUp;
  }

  /** A quota error at attempt `a`: one more sleep of the current delay, then the loop from `a + 1` with the delay doubled. */
  lemma BackoffStep(tryAppend: nat -> Option<Remote.Exc>, retries: nat, a: nat, delay: nat, pre: seq<nat>)
    requires a < retries && QuotaAt(tryAppend, a)
    ensures AfterSleeps(pre, BackoffFrom(tryAppend, retries, a, delay))
      == AfterSleeps(pre + [delay], BackoffFrom(tryAppend, retries, a + 1, 2 * delay))
  {
    var t := BackoffFrom(tryAppend, retries, a + 1, 2 * delay);
    assert pre + ([delay] + t.sleeps) == pre + [delay] + t.sleeps;
  }
}
