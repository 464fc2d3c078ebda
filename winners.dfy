/**
 * `src/modules/winners.py`: the Winners tab. One row per numbered case of the
 * Games tab: the players who answered that case correctly, their e-mails, the
 * previous case's clue and answer, and the newsletter sentence.
 */
module Winners {
  import opened Wrappers
  import opened Text
  import opened Collections
  import opened Sheet
  import Utils
  import Grading

  /** A sheet row as `rows_to_dicts` returns it. */
  type Record = map<string, string>

  /** `row.get(key, default)` */
  function GetOr(r: Record, key: string, default: string): string {
    if key in r then r[key] else default
  }

  // ---------------------------------------------------------------------
  // The case map `riddles_by_case`.

  /** `row.get("Case Number")` is truthy. */
  predicate HasCase(r: Record) {
    "Case Number" in r && r["Case Number"] != ""
  }

  /** `str(row.get("Case Number"))`: Python's `str(None)` when the column is missing. */
  function CaseText(r: Record): string {
    if "Case Number" in r then r["Case Number"] else "None"
  }

  function Self(r: Record): Record { r }

  /** `{str(row.get("Case Number")): row for row in riddles_data if row.get("Case Number")}` */
  function RiddlesByCase(riddles: seq<Record>): Dict<string, Record> {
    DictComp(riddles, HasCase, CaseText, Self)
  }

  /**
   * The case map has one entry per case string of a row that has one; a later row with
   * the same case replaces the earlier one, and the cases keep the order of their first row.
   */
  lemma RiddlesByCaseSpec(riddles: seq<Record>)
    ensures var d := RiddlesByCase(riddles);
      DistinctKeys(d)
      && (forall c :: HasKey(d, c) <==>
            exists j :: 0 <= j < |riddles| && HasCase(riddles[j]) && riddles[j]["Case Number"] == c)
      && (forall c, j: nat :: LastMatch(riddles, HasCase, CaseText, c, j) ==> Get(d, c) == Some(riddles[j]))
      && (forall i, i' :: 0 <= i < i' < |d| ==>
            FirstMatch(riddles, HasCase, CaseText, d[i].0) < FirstMatch(riddles, HasCase, CaseText, d[i'].0))
  {
    DictCompSpec(riddles, HasCase, CaseText, Self);
  }

  // ---------------------------------------------------------------------
  // The correct entries of one case and their names and e-mails.

  /** `str(e.get("Case Number")) == case_str and grading.is_marked_correct(e)` */
  predicate CorrectFor(c: string, e: Record) {
    CaseText(e) == c && Grading.IsMarkedCorrect(e)
  }

  /** `correct_entries` */
  function CorrectEntries(submissions: seq<Record>, c: string): seq<Record> {
    Filter(submissions, e => CorrectFor(c, e))
  }

  /** The correct entries are exactly the submissions for the case that are marked correct. */
  lemma CorrectEntriesSpec(submissions: seq<Record>, c: string)
    ensures forall e :: e in CorrectEntries(submissions, c) <==>
      e in submissions && CaseText(e) == c && Grading.IsMarkedCorrect(e)
  {
    FilterMembers(submissions, e => CorrectFor(c, e));
  }

  /** `e.get("First Name") and e.get("Last Name Initial")` */
  predicate Named(e: Record) {
    GetOr(e, "First Name", "") != "" && GetOr(e, "Last Name Initial", "") != ""
  }

  /** `f"{e['First Name']} {e['Last Name Initial']}."` */
  function DisplayName(e: Record): string {
    GetOr(e, "First Name", "") + " " + GetOr(e, "Last Name Initial", "") + "."
  }

  /** `e.get("Email", "")` */
  function EmailOf(e: Record): string {
    GetOr(e, "Email", "")
  }

  /** `{name: email for e in correct_entries if ...}` */
  function NameEmails(entries: seq<Record>): Dict<string, string> {
    DictComp(entries, Named, DisplayName, EmailOf)
  }

  /** The name of `a` sorts strictly before the name of `b`. */
  predicate Before(a: (string, string), b: (string, string)) {
    StrLe(a.0, b.0) && a.0 != b.0
  }

  /** Keys strictly ascending, hence also distinct. */
  predicate StrictlySorted(s: Dict<string, string>) {
    forall i, j :: 0 <= i < j < |s| ==> Before(s[i], s[j])
  }

  /** `x` placed after every pair whose name sorts before its own. */
  function InsertItem(x: (string, string), s: Dict<string, string>): (r: Dict<string, string>)
    ensures multiset(r) == multiset(s) + multiset{x}
    decreases |s|
  {
    if |s| == 0 then [x]
    else if StrLe(s[0].0, x.0) then
      assert s == [s[0]] + s[1..];
      [s[0]] + InsertItem(x, s[1..])
    else [x] + s
  }

  /** `sorted(d.items())`, as an insertion sort; the names are distinct, so the e-mails never decide. */
  function SortItems(d: Dict<string, string>): (r: Dict<string, string>)
    ensures multiset(r) == multiset(d)
    decreases |d|
  {
    if |d| == 0 then []
    else
      assert d == d[..|d| - 1] + [d[|d| - 1]];
      InsertItem(d[|d| - 1], SortItems(d[..|d| - 1]))
  }

  lemma {:induction false} InsertItemSorted(x: (string, string), s: Dict<string, string>)
    requires StrictlySorted(s)
    requires forall i :: 0 <= i < |s| ==> s[i].0 != x.0
    ensures StrictlySorted(InsertItem(x, s))
    decreases |s|
  {
    if |s| > 0 {
      if StrLe(s[0].0, x.0) {
        InsertItemSorted(x, s[1..]);
        assert Before(s[0], x);
        InsertAfterHead(x, s);
      } else {
        InsertAtHead(x, s);
      }
    }
  }

  /** `x` goes after the head: the head sorts before everything inserted after it. */
  lemma InsertAfterHead(x: (string, string), s: Dict<string, string>)
    requires StrictlySorted(s) && |s| > 0 && Before(s[0], x)
    requires StrictlySorted(InsertItem(x, s[1..]))
    ensures StrictlySorted([s[0]] + InsertItem(x, s[1..]))
  {
    var t := InsertItem(x, s[1..]);
    forall k | 0 <= k < |t| ensures Before(s[0], t[k]) {
      var y := t[k];
      assert y in multiset(t);
      if y != x {
        assert y in multiset(s[1..]);
        var j :| 0 <= j < |s[1..]| && s[1..][j] == y;
        assert s[j + 1] == y;
      }
    }
    ConsSorted(s[0], t);
  }

  /** A sorted list stays sorted under a head that sorts before all of it. */
  lemma ConsSorted(h: (string, string), t: Dict<string, string>)
    requires StrictlySorted(t)
    requires forall k :: 0 <= k < |t| ==> Before(h, t[k])
    ensures StrictlySorted([h] + t)
  {
    var r := [h] + t;
    forall i, j | 0 <= i < j < |r| ensures Before(r[i], r[j]) {
      assert r[j] == t[j - 1];
      if i > 0 { assert r[i] == t[i - 1]; }
    }
  }

  /** `x` sorts before the head, hence before everything. */
  lemma InsertAtHead(x: (string, string), s: Dict<string, string>)
    requires StrictlySorted(s) && |s| > 0 && !StrLe(s[0].0, x.0)
    requires forall i :: 0 <= i < |s| ==> s[i].0 != x.0
    ensures StrictlySorted([x] + s)
  {
    StrLeTotal(s[0].0, x.0);
    forall k | 0 <= k < |s| ensures Before(x, s[k]) {
      if k > 0 { StrLeTrans(x.0, s[0].0, s[k].0); }
    }
    ConsSorted(x, s);
  }

  lemma {:induction false} SortItemsSorted(d: Dict<string, string>)
    requires DistinctKeys(d)
    ensures StrictlySorted(SortItems(d))
    decreases |d|
  {
    if |d| > 0 {
      var n := |d| - 1;
      var init := d[..n];
      assert DistinctKeys(init) by {
        forall i, j | 0 <= i < j < |init| ensures init[i].0 != init[j].0 {
          assert init[i] == d[i] && init[j] == d[j];
        }
      }
      var s := SortItems(init);
      SortItemsSorted(init);
      assert SortItems(d) == InsertItem(d[n], s);
      forall i | 0 <= i < |s| ensures s[i].0 != d[n].0 {
        assert s[i] in multiset(init);
        var p :| 0 <= p < n && init[p] == s[i];
        assert d[p] == s[i];
      }
      InsertItemSorted(d[n], s);
    }
  }

  /** Two dicts with distinct keys and the same pairs answer every lookup alike. */
  lemma SameItems(a: Dict<string, string>, b: Dict<string, string>, k: string)
    requires multiset(a) == multiset(b) && DistinctKeys(a) && DistinctKeys(b)
    ensures HasKey(a, k) <==> HasKey(b, k)
    ensures Get(a, k) == Get(b, k)
  {
    if HasKey(a, k) { SameItemsOneWay(a, b, k); }
    if HasKey(b, k) { SameItemsOneWay(b, a, k); }
  }

  lemma SameItemsOneWay(a: Dict<string, string>, b: Dict<string, string>, k: string)
    requires multiset(a) == multiset(b) && DistinctKeys(b)
    requires HasKey(a, k)
    ensures HasKey(b, k) && Get(b, k) == Get(a, k)
  {
    var p := a[IndexOfKey(a, k)];
    assert p in multiset(b);
    var q :| 0 <= q < |b| && b[q] == p;
    HasKeyAt(b, k, q);
  }

  /** `winner_names`: the sorted name/e-mail pairs of the correct entries. */
  function WinnerItems(entries: seq<Record>): Dict<string, string> {
    SortItems(NameEmails(entries))
  }

  /**
   * The winner names are strictly ascending (so unique); a name is listed exactly when an
   * entry with a first name and a last initial carries it, and it keeps the e-mail of the
   * last such entry.
   */
  lemma WinnerItemsSpec(entries: seq<Record>)
    ensures var items := WinnerItems(entries);
      StrictlySorted(items)
      && (forall name :: HasKey(items, name) <==>
            exists j :: 0 <= j < |entries| && Named(entries[j]) && DisplayName(entries[j]) == name)
      && (forall name, j: nat :: LastMatch(entries, Named, DisplayName, name, j) ==>
            Get(items, name) == Some(EmailOf(entries[j])))
  {
    var d := NameEmails(entries);
    var items := WinnerItems(entries);
    DictCompSpec(entries, Named, DisplayName, EmailOf);
    SortItemsSorted(d);
    assert DistinctKeys(items);
    forall name ensures HasKey(items, name) <==> HasKey(d, name) {
      SameItems(items, d, name);
    }
    forall name, j: nat | LastMatch(entries, Named, DisplayName, name, j)
      ensures Get(items, name) == Some(EmailOf(entries[j]))
    {
      SameItems(items, d, name);
    }
  }

  function Names(items: Dict<string, string>): seq<string> {
    seq(|items|, i requires 0 <= i < |items| => items[i].0)
  }

  function Emails(items: Dict<string, string>): seq<string> {
    seq(|items|, i requires 0 <= i < |items| => items[i].1)
  }

  const Congrats := "Congrats to (FIRST LAST INITIAL., skip for now), who will receive Spotlight PA swag. Others who answered correctly: "

  /** `full_text`: blank without winners, else the fixed sentence followed by `winners_str`. */
  function FullText(items: Dict<string, string>): (r: string)
    ensures r == "" <==> |items| == 0
    ensures |items| > 0 ==> StartsWith(r, Congrats) && r[|Congrats|..] == Join(", ", Names(items))
  {
    if |items| == 0 then "" else Congrats + Join(", ", Names(items))
  }

  /** A join of names that are never blank is blank only when there are no names. */
  lemma JoinBlank(parts: seq<string>)
    requires forall i :: 0 <= i < |parts| ==> parts[i] != ""
    ensures Join(", ", parts) == "" <==> |parts| == 0
  {
    if |parts| > 0 {
      JoinContainsParts(", ", parts, 0);
      var k :| 0 <= k <= |Join(", ", parts)| - |parts[0]| && IsSubstringAt(Join(", ", parts), parts[0], k);
    }
  }

  // ---------------------------------------------------------------------
  // The rows of the Winners tab.

  /** The case number as the sheet shows the `int` written to it. */
  function CaseNumber(c: string): nat
    requires IsDigits(c)
  {
    ParseNat(c)
  }

  /** `riddle.get(field, "").strip()` of the previous case, "" when that case is absent. */
  function PrevField(byCase: Dict<string, Record>, c: string, field: string): string
    requires IsDigits(c)
  {
    match Get(byCase, IntToString(CaseNumber(c) - 1))
    case Some(prev) => Strip(GetOr(prev, field, ""))
    case None => ""
  }

  /** The nine cells written for case `c`. */
  function WinnerRow(c: string, riddle: Record, byCase: Dict<string, Record>, submissions: seq<Record>): (row: seq<string>)
    requires IsDigits(c)
    ensures |row| == 9 && row[2] == "" && row[3] == ""
    ensures row[8] == "" <==> row[4] == ""
  {
    var items := WinnerItems(CorrectEntries(submissions, c));
    var names := Names(items);
    assert forall i :: 0 <= i < |names| ==> names[i] != "" by {
      WinnerItemsSpec(CorrectEntries(submissions, c));
      forall i | 0 <= i < |names| ensures names[i] != "" {
        var entries := CorrectEntries(submissions, c);
        HasKeyAt(items, names[i], i);
        var j :| 0 <= j < |entries| && Named(entries[j]) && DisplayName(entries[j]) == names[i];
      }
    }
    JoinBlank(names);
    [NatToString(CaseNumber(c)), GetOr(riddle, "Game", ""), "", "",
     Join(", ", names), Join(", ", Emails(items)),
     PrevField(byCase, c, "Question"), PrevField(byCase, c, "Answer"), FullText(items)]
  }

  /** The case could be a key of `riddles_by_case` and passes `case_str.isdigit()`. */
  predicate DigitCase(e: (string, Record)) {
    IsDigits(e.0)
  }

  /** `all_rows` after the loop over the cases `cases` (a prefix of `byCase`). */
  function WinnerRows(cases: Dict<string, Record>, byCase: Dict<string, Record>, submissions: seq<Record>): seq<seq<string>>
    decreases |cases|
  {
    if |cases| == 0 then []
    else
      var last := cases[|cases| - 1];
      WinnerRows(cases[..|cases| - 1], byCase, submissions)
        + (if IsDigits(last.0) then [WinnerRow(last.0, last.1, byCase, submissions)] else [])
  }

  /** One row per case that is a digit string, in the order of the cases. */
  lemma {:induction false} WinnerRowsSpec(cases: Dict<string, Record>, byCase: Dict<string, Record>, submissions: seq<Record>)
    ensures var rows, dc := WinnerRows(cases, byCase, submissions), Filter(cases, DigitCase);
      |rows| == |dc|
      && forall i :: 0 <= i < |rows| ==> IsDigits(dc[i].0) && rows[i] == WinnerRow(dc[i].0, dc[i].1, byCase, submissions)
    decreases |cases|
  {
    if |cases| > 0 {
      WinnerRowsSpec(cases[..|cases| - 1], byCase, submissions);
    }
  }

  /** The loop of `populate_winners_tab` that builds `all_rows`. */
  method CollectWinnerRows(byCase: Dict<string, Record>, submissions: seq<Record>) returns (rows: seq<seq<string>>)
    ensures rows == WinnerRows(byCase, byCase, submissions)
  {
    rows := [];
    var k := 0;
    while k < |byCase|
      invariant 0 <= k <= |byCase|
      invariant rows == WinnerRows(byCase[..k], byCase, submissions)
    {
      var (c, riddle) := byCase[k];
      assert byCase[..k + 1][..k] == byCase[..k];
      if IsDigits(c) {
        rows := rows + [WinnerRow(c, riddle, byCase, submissions)];
      }
      k := k + 1;
    }
    assert byCase[..k] == byCase;
  }

  /** The previous case's clue comes from the last Games row numbered one less, "" when there is none. */
  lemma PrevFieldSpec(riddles: seq<Record>, c: string, field: string)
    requires IsDigits(c)
    ensures var p := IntToString(CaseNumber(c) - 1);
      (forall j: nat :: LastMatch(riddles, HasCase, CaseText, p, j) ==>
        PrevField(RiddlesByCase(riddles), c, field) == Strip(GetOr(riddles[j], field, "")))
      && ((forall j :: 0 <= j < |riddles| ==> !(HasCase(riddles[j]) && riddles[j]["Case Number"] == p)) ==>
        PrevField(RiddlesByCase(riddles), c, field) == "")
  {
    RiddlesByCaseSpec(riddles);
    var p := IntToString(CaseNumber(c) - 1);
    if forall j :: 0 <= j < |riddles| ==> !(HasCase(riddles[j]) && riddles[j]["Case Number"] == p) {
      assert !HasKey(RiddlesByCase(riddles), p);
    }
  }

  // ---------------------------------------------------------------------
  // Clearing and writing the tab.

  /** `len(winners_ws.row_values(1))`: the API leaves out trailing empty cells. */
  function HeaderWidth(w: Grid): nat {
    |RowValues(w, 1)|
  }

  /** `[["" for _ in range(width)] for _ in range(n)]` */
  function Blank(n: nat, width: nat): Grid {
    seq(n, _ => seq(width, _ => ""))
  }

  /** The blanking of rows 3..last_row, when the tab has a third row. */
  function ClearOp(w: Grid): (r: Option<WriteOp>)
  {
    if |w| >= 3 then Some(WriteOp(3, 1, Blank(|w| - 2, HeaderWidth(w)))) else None
  }

  /** The write of the new rows from row 3, when there are any. */
  function PutOp(rows: seq<seq<string>>): (r: Option<WriteOp>)
  {
    if |rows| > 0 then Some(WriteOp(3, 1, rows)) else None
  }

  /** The writes to the Winners tab: the blanking of the old rows, then the new rows. */
  function WinnersOps(w: Grid, rows: seq<seq<string>>): seq<WriteOp> {
    OptOps(ClearOp(w)) + OptOps(PutOp(rows))
  }

  /** After the blanking, rows 3..last_row are empty up to the header's width, every other cell is kept. */
  lemma ClearedCell(w: Grid, i: nat, j: nat)
    ensures CellAt(ApplyOpt(w, ClearOp(w)), i, j) ==
      if 2 <= i < |w| && j < HeaderWidth(w) then "" else CellAt(w, i, j)
  {
    if |w| >= 3 {
      var op := ClearOp(w).value;
      var b := op.values;
      WriteBlockCellAt(w, op.row - 1, op.col - 1, b, i, j);
      if 2 <= i < |w| { assert |b[i - 2]| == HeaderWidth(w); }
    }
  }

  /**
   * The Winners tab after `populate_winners_tab`, cell by cell (0-based): the new rows
   * from the third row on, then blanks down to the old last row within the header's
   * width, and the old cells everywhere else.
   */
  lemma WinnersGridSpec(w: Grid, rows: seq<seq<string>>, i: nat, j: nat)
    requires forall k :: 0 <= k < |rows| ==> |rows[k]| == 9
    ensures CellAt(ApplyOps(w, WinnersOps(w, rows)), i, j) ==
        if 2 <= i < 2 + |rows| && j < 9 then rows[i - 2][j]
        else if 2 <= i < |w| && j < HeaderWidth(w) then ""
        else CellAt(w, i, j)
  {
    ApplyTwoOpt(w, ClearOp(w), PutOp(rows));
    ClearedCell(w, i, j);
    PutCell(ApplyOpt(w, ClearOp(w)), rows, i, j);
  }

  /** After writing the new rows, rows 3.. hold them in columns A..I, every other cell is kept. */
  lemma PutCell(g: Grid, rows: seq<seq<string>>, i: nat, j: nat)
    requires forall k :: 0 <= k < |rows| ==> |rows[k]| == 9
    ensures CellAt(ApplyOpt(g, PutOp(rows)), i, j) ==
      if 2 <= i < 2 + |rows| && j < 9 then rows[i - 2][j] else CellAt(g, i, j)
  {
    if |rows| > 0 {
      var op := PutOp(rows).value;
      WriteBlockCellAt(g, op.row - 1, op.col - 1, op.values, i, j);
      if 2 <= i < 2 + |rows| {
        var d := i - 2;
        assert |rows[d]| == 9;
      }
    }
  }

  /** `rows_to_dicts(ws.get_all_values()[2:], header)`; the header is row 1. */
  function SheetRecords(g: Grid): seq<Record>
    requires |g| > 0
  {
    Utils.RowsToDicts(if |g| >= 2 then g[2..] else [], g[0])
  }

  /**
   * `populate_winners_tab`. Reading row 1 of an empty Games or Submissions tab
   * raises before anything is written (`ok` false); otherwise the Winners tab is
   * cleared from row 3 down and the new rows are written from row 3.
   */
  method PopulateWinnersTab(games: Worksheet, submissions: Worksheet, winners: Worksheet) returns (ok: bool)
    modifies winners
    ensures ok <==> |old(games.grid)| > 0 && |old(submissions.grid)| > 0
    ensures !ok ==> winners.grid == old(winners.grid) && winners.writes == old(winners.writes)
    ensures ok ==>
      var byCase := RiddlesByCase(SheetRecords(old(games.grid)));
      var rows := WinnerRows(byCase, byCase, SheetRecords(old(submissions.grid)));
      winners.grid == ApplyOps(old(winners.grid), WinnersOps(old(winners.grid), rows))
      && winners.writes == old(winners.writes) + WinnersOps(old(winners.grid), rows)
  {
    var riddlesRaw := games.grid;
    if |riddlesRaw| == 0 {
      return false;
    }
    var byCase := RiddlesByCase(SheetRecords(riddlesRaw));
    var subRaw := submissions.grid;
    if |subRaw| == 0 {
      return false;
    }
    var subs := SheetRecords(subRaw);
    ghost var w, log := winners.grid, winners.writes;
    var clear := ClearOp(winners.grid);
    winners.UpdateOpt(clear);
    ghost var w1, log1 := winners.grid, winners.writes;
    var rows := CollectWinnerRows(byCase, subs);
    var put := PutOp(rows);
    winners.UpdateOpt(put);
    ok := true;
    ApplyTwoOpt(w, clear, put);
    AppendAssoc(log, OptOps(clear), OptOps(put));
  }
}
