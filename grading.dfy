/**
 * `src/modules/grading.py`: header lookup, the index of game windows, the
 * window a submission falls into, the grading rubric for a game, the parse of
 * the grading model's reply, and effective correctness.
 */
module Grading {
  import opened Wrappers
  import opened Text
  import Scrambler

  // ---------------------------------------------------------------------
  // Loose header lookup (`_header_map_loose`).

  /** `re.sub(r"\s+", " ", s)` */
  function CollapseSpaces(s: string): string
    decreases |s|
  {
    if |s| == 0 then ""
    else if IsSpace(s[0]) then " " + CollapseSpaces(s[Scrambler.SkipSpaces(s, 0)..])
    else [s[0]] + CollapseSpaces(s[1..])
  }

  /** The only whitespace left is the single space, and no two spaces are adjacent. */
  lemma {:induction false} CollapseSpacesSpec(s: string)
    ensures forall i :: 0 <= i < |CollapseSpaces(s)| ==> CollapseSpaces(s)[i] == ' ' || !IsSpace(CollapseSpaces(s)[i])
    ensures forall i :: 0 < i < |CollapseSpaces(s)| && CollapseSpaces(s)[i] == ' ' ==> CollapseSpaces(s)[i - 1] != ' '
    ensures |s| > 0 ==> |CollapseSpaces(s)| > 0 && (IsSpace(s[0]) <==> CollapseSpaces(s)[0] == ' ')
    decreases |s|
  {
    if |s| > 0 {
      var k := if IsSpace(s[0]) then Scrambler.SkipSpaces(s, 0) else 1;
      CollapseSpacesSpec(s[k..]);
      var t := CollapseSpaces(s[k..]);
      var r := CollapseSpaces(s);
      assert r == (if IsSpace(s[0]) then " " else [s[0]]) + t;
      if IsSpace(s[0]) && |t| > 0 {
        assert k < |s| && !IsSpace(s[k..][0]);
        assert t[0] != ' ';
      }
      forall i | 0 < i < |r| && r[i] == ' ' ensures r[i - 1] != ' ' {
        assert r[i] == t[i - 1];
        if i > 1 { assert r[i - 1] == t[i - 2]; }
      }
    }
  }

  /** `norm(s)` inside `_header_map_loose`: stripped, lower-cased, inner whitespace runs made one space. */
  function LooseNorm(s: string): string {
    CollapseSpaces(Lower(Strip(s)))
  }

  /** `hm.get(key)` for `hm = {norm(h): i for i, h in enumerate(headers)}`: the last header with that form. */
  function LastHeaderIndex(headers: seq<string>, key: string): (r: Option<nat>)
    ensures r.Some? ==> (r.value < |headers| && LooseNorm(headers[r.value]) == key
      && forall j :: r.value < j < |headers| ==> LooseNorm(headers[j]) != key)
    ensures r.None? ==> forall j :: 0 <= j < |headers| ==> LooseNorm(headers[j]) != key
  {
    LastHeaderBelow(headers, key, |headers|)
  }

  /** The last of the first `n` headers whose loose form is `key`. */
  function LastHeaderBelow(headers: seq<string>, key: string, n: nat): (r: Option<nat>)
    requires n <= |headers|
    ensures r.Some? ==> (r.value < n && LooseNorm(headers[r.value]) == key
      && forall j :: r.value < j < n ==> LooseNorm(headers[j]) != key)
    ensures r.None? ==> forall j :: 0 <= j < n ==> LooseNorm(headers[j]) != key
  {
    if n == 0 then None
    else if LooseNorm(headers[n - 1]) == key then Some(n - 1)
    else LastHeaderBelow(headers, key, n - 1)
  }

  /** `idx_of(*candidates)`: the column of the first candidate name present. */
  function IdxOf(headers: seq<string>, candidates: seq<string>): (r: Option<nat>)
    ensures r.Some? ==> r.value < |headers| && exists c :: (0 <= c < |candidates|
      && LastHeaderIndex(headers, LooseNorm(candidates[c])) == r
      && forall c' :: 0 <= c' < c ==> LastHeaderIndex(headers, LooseNorm(candidates[c'])).None?)
    ensures r.None? ==> forall c :: 0 <= c < |candidates| ==> LastHeaderIndex(headers, LooseNorm(candidates[c])).None?
  {
    IdxFrom(headers, candidates, 0)
  }

  /** The column of the first candidate name present, trying candidates from the `i`th on. */
  function IdxFrom(headers: seq<string>, candidates: seq<string>, i: nat): (r: Option<nat>)
    requires i <= |candidates|
    ensures r.Some? ==> r.value < |headers| && exists c :: (i <= c < |candidates|
      && LastHeaderIndex(headers, LooseNorm(candidates[c])) == r
      && forall c' :: i <= c' < c ==> LastHeaderIndex(headers, LooseNorm(candidates[c'])).None?)
    ensures r.None? ==> forall c :: i <= c < |candidates| ==> LastHeaderIndex(headers, LooseNorm(candidates[c])).None?
    decreases |candidates| - i
  {
    if i == |candidates| then None
    else
      var h := LastHeaderIndex(headers, LooseNorm(candidates[i]));
      if h.Some? then h
      else
        var r := IdxFrom(headers, candidates, i + 1);
        if r.Some? then
          var c :| i + 1 <= c < |candidates|
            && LastHeaderIndex(headers, LooseNorm(candidates[c])) == r
            && forall c' :: i + 1 <= c' < c ==> LastHeaderIndex(headers, LooseNorm(candidates[c'])).None?;
          r
        else r
  }

  // ---------------------------------------------------------------------
  // The index of playable game rows (`build_games_index`).

  /** A timestamp, as seconds on the naive local clock the sheet uses. */
  type Time = int

  /** `parser.parse` on a non-empty cell: `None` where it raises. */
  type DateParser = string -> Option<Time>

  /** `_parse_dt_safe(s)` */
  function ParseDtSafe(parse: DateParser, s: string): Option<Time> {
    if s == "" then None else parse(s)
  }

  /** A 1-based sheet row or column number. */
  type SheetNumber = n: nat | n >= 1 witness 1

  /** One playable row of the Games sheet. */
  datatype GameEntry = GameEntry(
    game: string, start: Time, end: Time, question: string, answer: string,
    grading: string, rowNumber: SheetNumber, gradingCol: SheetNumber)

  /** The 0-based columns `build_games_index` needs. */
  datatype GameColumns = GameColumns(game: nat, start: nat, end: nat, question: nat, answer: nat, grading: nat)

  const AnswerNames: seq<string> := ["Answer", "Accepted Answer(s)", "Answers"]
  const GradingNames: seq<string> := ["AI Grading Prompt", "AI Grading Instructions", "Grading Prompt"]

  /** The six columns, or `None` when one of them is missing. */
  function GamesColumns(headers: seq<string>): (r: Option<GameColumns>)
    ensures r.Some? ==> (r.value.game < |headers| && r.value.start < |headers| && r.value.end < |headers|
      && r.value.question < |headers| && r.value.answer < |headers| && r.value.grading < |headers|)
  {
    var g := IdxOf(headers, ["Game"]);
    var s := IdxOf(headers, ["Start Time", "Start"]);
    var e := IdxOf(headers, ["End Time", "End"]);
    var q := IdxOf(headers, ["Question"]);
    var a := IdxOf(headers, AnswerNames);
    var p := IdxOf(headers, GradingNames);
    if g.None? || s.None? || e.None? || q.None? || a.None? || p.None? then None
    else Some(GameColumns(g.value, s.value, e.value, q.value, a.value, p.value))
  }

  /** `(row[c] or "").strip()` on a row padded to the header width. */
  function Field(row: seq<string>, c: nat): string {
    Strip(if c < |row| then row[c] else "")
  }

  /** The index entry for sheet row `rowNumber`, or `None` when it has no game or an unparseable window. */
  function EntryOf(row: seq<string>, rowNumber: SheetNumber, cols: GameColumns, parse: DateParser): (r: Option<GameEntry>)
    ensures r.Some? ==> r.value.game != "" && r.value.rowNumber == rowNumber && r.value.gradingCol == cols.grading + 1
  {
    var start := ParseDtSafe(parse, Field(row, cols.start));
    var end := ParseDtSafe(parse, Field(row, cols.end));
    var game := Field(row, cols.game);
    if game == "" || start.None? || end.None? then None
    else Some(GameEntry(game, start.value, end.value, Field(row, cols.question), Field(row, cols.answer),
                        Field(row, cols.grading), rowNumber, cols.grading + 1))
  }

  /** The entry (or `None`) for each sheet row, numbered from 1. */
  function RowEntries(rows: seq<seq<string>>, cols: GameColumns, parse: DateParser): (r: seq<Option<GameEntry>>)
    ensures |r| == |rows|
    ensures forall k :: 0 <= k < |rows| ==> r[k] == EntryOf(rows[k], k + 1, cols, parse)
  {
    seq(|rows|, k requires 0 <= k < |rows| => EntryOf(rows[k], k + 1, cols, parse))
  }

  /** The present values, in order. */
  function Somes<T>(xs: seq<Option<T>>): seq<T>
    decreases |xs|
  {
    if |xs| == 0 then []
    else Somes(xs[..|xs| - 1]) + (if xs[|xs| - 1].Some? then [xs[|xs| - 1].value] else [])
  }

  lemma {:induction false} SomesSpec<T>(xs: seq<Option<T>>)
    ensures forall e :: e in Somes(xs) <==> exists k :: 0 <= k < |xs| && xs[k] == Some(e)
    decreases |xs|
  {
    if |xs| > 0 {
      var m := |xs| - 1;
      SomesSpec(xs[..m]);
      forall e ensures e in Somes(xs) <==> exists k :: 0 <= k < |xs| && xs[k] == Some(e) {
        if exists k :: 0 <= k < |xs| && xs[k] == Some(e) {
          var k :| 0 <= k < |xs| && xs[k] == Some(e);
          if k < m { assert xs[..m][k] == Some(e); }
        }
        if e in Somes(xs[..m]) {
          var k :| 0 <= k < m && xs[..m][k] == Some(e);
          assert xs[k] == Some(e);
        }
      }
    }
  }

  lemma SomesSnoc<T>(xs: seq<Option<T>>, a: nat, b: nat)
    requires a <= b < |xs|
    ensures Somes(xs[a..b + 1]) == Somes(xs[a..b]) + (if xs[b].Some? then [xs[b].value] else [])
  {
    assert xs[a..b + 1][..b - a] == xs[a..b];
  }

  lemma SliceToEnd<T>(xs: seq<T>, a: nat)
    requires a <= |xs|
    ensures xs[a..|xs|] == xs[a..]
  {
  }

  /** `index` before sorting: the entries of the sheet rows from 3 on, in sheet order. */
  function Playable(rows: seq<seq<string>>, cols: GameColumns, parse: DateParser): seq<GameEntry> {
    if |rows| < 3 then [] else Somes(RowEntries(rows, cols, parse)[2..])
  }

  /**
   * The playable entries are exactly the rows from 3 on that have a game and a
   * parseable window, each recorded with its own sheet row number.
   */
  lemma PlayableSpec(rows: seq<seq<string>>, cols: GameColumns, parse: DateParser)
    ensures forall e :: e in Playable(rows, cols, parse) <==>
      exists k :: 2 <= k < |rows| && EntryOf(rows[k], k + 1, cols, parse) == Some(e)
    ensures forall e :: e in Playable(rows, cols, parse) ==> 3 <= e.rowNumber <= |rows| && e.game != ""
  {
    if |rows| >= 3 {
      var xs := RowEntries(rows, cols, parse)[2..];
      SomesSpec(xs);
      forall e ensures e in Playable(rows, cols, parse) <==>
        exists k :: 2 <= k < |rows| && EntryOf(rows[k], k + 1, cols, parse) == Some(e)
      {
        if exists k :: 2 <= k < |rows| && EntryOf(rows[k], k + 1, cols, parse) == Some(e) {
          var k :| 2 <= k < |rows| && EntryOf(rows[k], k + 1, cols, parse) == Some(e);
          assert xs[k - 2] == Some(e);
        }
        if e in Somes(xs) {
          var k :| 0 <= k < |xs| && xs[k] == Some(e);
          assert EntryOf(rows[k + 2], k + 3, cols, parse) == Some(e);
        }
      }
    }
  }

  /** The sort key `(r["game"].lower(), r["start_dt"])`, compared as a Python tuple. */
  predicate KeyLe(a: GameEntry, b: GameEntry) {
    var ga, gb := Lower(a.game), Lower(b.game);
    if ga == gb then a.start <= b.start else StrLe(ga, gb)
  }

  lemma KeyLeTotal(a: GameEntry, b: GameEntry)
    ensures KeyLe(a, b) || KeyLe(b, a)
  {
    StrLeTotal(Lower(a.game), Lower(b.game));
  }

  lemma KeyLeTrans(a: GameEntry, b: GameEntry, c: GameEntry)
    requires KeyLe(a, b) && KeyLe(b, c)
    ensures KeyLe(a, c)
  {
    var ga, gb, gc := Lower(a.game), Lower(b.game), Lower(c.game);
    if ga != gb && gb != gc {
      StrLeTrans(ga, gb, gc);
      if ga == gc { StrLeAntisym(ga, gb); }
    }
  }

  predicate SortedByKey(s: seq<GameEntry>) {
    forall i, j :: 0 <= i < j < |s| ==> KeyLe(s[i], s[j])
  }

  /** `x` placed after every entry whose key is at most its own. */
  function InsertByKey(x: GameEntry, s: seq<GameEntry>): (r: seq<GameEntry>)
    ensures multiset(r) == multiset(s) + multiset{x}
    decreases |s|
  {
    if |s| == 0 then [x]
    else if KeyLe(s[0], x) then
      assert s == [s[0]] + s[1..];
      [s[0]] + InsertByKey(x, s[1..])
    else [x] + s
  }

  /** `index.sort(key=lambda r: (r["game"].lower(), r["start_dt"]))`, as an insertion sort. */
  function SortByKey(s: seq<GameEntry>): (r: seq<GameEntry>)
    ensures multiset(r) == multiset(s)
    decreases |s|
  {
    if |s| == 0 then []
    else
      assert s == s[..|s| - 1] + [s[|s| - 1]];
      InsertByKey(s[|s| - 1], SortByKey(s[..|s| - 1]))
  }

  /** An entry at most every entry of a sorted sequence can go in front of it. */
  lemma ConsSorted(a: GameEntry, t: seq<GameEntry>)
    requires SortedByKey(t)
    requires forall y :: y in t ==> KeyLe(a, y)
    ensures SortedByKey([a] + t)
  {
    var r := [a] + t;
    forall i, j | 0 <= i < j < |r| ensures KeyLe(r[i], r[j]) {
      if i == 0 {
        assert r[j] == t[j - 1] && t[j - 1] in t;
      } else {
        assert r[i] == t[i - 1] && r[j] == t[j - 1];
      }
    }
  }

  /** A lower bound of `x` and of every entry of `s` bounds every entry of the insertion too. */
  lemma InsertByKeyBounded(a: GameEntry, x: GameEntry, s: seq<GameEntry>)
    requires KeyLe(a, x) && forall y :: y in s ==> KeyLe(a, y)
    ensures forall y :: y in InsertByKey(x, s) ==> KeyLe(a, y)
  {
    var t := InsertByKey(x, s);
    forall y | y in t ensures KeyLe(a, y) {
      assert y in multiset(t);
      if y != x {
        assert y in multiset(s);
      }
    }
  }

  lemma {:induction false} InsertByKeySorted(x: GameEntry, s: seq<GameEntry>)
    requires SortedByKey(s)
    ensures SortedByKey(InsertByKey(x, s))
    decreases |s|
  {
    if |s| > 0 {
      var tail := s[1..];
      assert SortedByKey(tail) by {
        forall i, j | 0 <= i < j < |tail| ensures KeyLe(tail[i], tail[j]) {
          assert tail[i] == s[i + 1] && tail[j] == s[j + 1];
        }
      }
      if KeyLe(s[0], x) {
        InsertByKeySorted(x, tail);
        forall y | y in tail ensures KeyLe(s[0], y) {
          var j :| 0 <= j < |tail| && tail[j] == y;
          assert s[j + 1] == y;
        }
        InsertByKeyBounded(s[0], x, tail);
        ConsSorted(s[0], InsertByKey(x, tail));
      } else {
        KeyLeTotal(s[0], x);
        forall y | y in s ensures KeyLe(x, y) {
          var j :| 0 <= j < |s| && s[j] == y;
          if j > 0 {
            KeyLeTrans(x, s[0], s[j]);
          }
        }
        ConsSorted(x, s);
      }
    }
  }

  lemma {:induction false} SortByKeySorted(s: seq<GameEntry>)
    ensures SortedByKey(SortByKey(s))
    decreases |s|
  {
    if |s| > 0 {
      SortByKeySorted(s[..|s| - 1]);
      InsertByKeySorted(s[|s| - 1], SortByKey(s[..|s| - 1]));
    }
  }

  /** The row loop of `build_games_index`: the entries of rows 3 and later, appended in sheet order. */
  method CollectPlayable(rows: seq<seq<string>>, cols: GameColumns, parse: DateParser) returns (index: seq<GameEntry>)
    ensures index == Playable(rows, cols, parse)
  {
    index := [];
    if |rows| < 3 {
      return;
    }
    ghost var xs := RowEntries(rows, cols, parse);
    var rowNum := 3;
    while rowNum <= |rows|
      invariant 3 <= rowNum <= |rows| + 1
      invariant index == Somes(xs[2..rowNum - 1])
    {
      SomesSnoc(xs, 2, rowNum - 1);
      var e := EntryOf(rows[rowNum - 1], rowNum, cols, parse);
      if e.Some? {
        index := index + [e.value];
      }
      rowNum := rowNum + 1;
    }
    SliceToEnd(xs, 2);
  }

  /**
   * `build_games_index()` over the Games grid: [] for an empty sheet or a
   * missing column; otherwise the playable rows from 3 on, sorted by
   * lower-cased game and then start.
   */
  /** The index `build_games_index()` returns. */
  function GamesIndex(rows: seq<seq<string>>, parse: DateParser): seq<GameEntry> {
    if rows == [] || GamesColumns(rows[0]).None? then []
    else SortByKey(Playable(rows, GamesColumns(rows[0]).value, parse))
  }

  lemma SortByKeyMember(s: seq<GameEntry>, e: GameEntry)
    requires e in SortByKey(s)
    ensures e in s
  {
    assert e in multiset(SortByKey(s));
  }

  /** Every indexed entry comes from a sheet row from 3 on and names a real grading column. */
  lemma GamesIndexEntries(rows: seq<seq<string>>, parse: DateParser)
    ensures forall e :: e in GamesIndex(rows, parse) ==> 3 <= e.rowNumber <= |rows| && e.gradingCol >= 1 && e.game != ""
  {
    if rows != [] && GamesColumns(rows[0]).Some? {
      var cols := GamesColumns(rows[0]).value;
      var p := Playable(rows, cols, parse);
      assert GamesIndex(rows, parse) == SortByKey(p);
      PlayableSpec(rows, cols, parse);
      forall e | e in SortByKey(p) ensures 3 <= e.rowNumber <= |rows| && e.gradingCol >= 1 && e.game != "" {
        SortByKeyMember(p, e);
        var k :| 2 <= k < |rows| && EntryOf(rows[k], k + 1, cols, parse) == Some(e);
      }
    }
  }

  method BuildGamesIndex(rows: seq<seq<string>>, parse: DateParser) returns (index: seq<GameEntry>)
    ensures index == GamesIndex(rows, parse)
    ensures rows == [] || GamesColumns(rows[0]).None? ==> index == []
    ensures rows != [] && GamesColumns(rows[0]).Some? ==>
      SortedByKey(index) && multiset(index) == multiset(Playable(rows, GamesColumns(rows[0]).value, parse))
  {
    if |rows| == 0 {
      return [];
    }
    var colsOpt := GamesColumns(rows[0]);
    if colsOpt.None? {
      return [];
    }
    index := CollectPlayable(rows, colsOpt.value, parse);
    SortByKeySorted(index);
    index := SortByKey(index);
  }

  // ---------------------------------------------------------------------
  // The window a submission falls into.

  /** Entry `e` is a window of game `gtype` (trimmed and lower-cased) containing `t`, both ends included. */
  predicate InWindow(e: GameEntry, gtype: string, t: Time) {
    Lower(Strip(e.game)) == gtype && e.start <= t <= e.end
  }

  /** The first entry of `index` that is a window of `gtype` containing `t`. */
  function FirstWindow(index: seq<GameEntry>, gtype: string, t: Time): (r: Option<GameEntry>)
    ensures r.None? <==> forall i :: 0 <= i < |index| ==> !InWindow(index[i], gtype, t)
    ensures r.Some? ==> exists i :: (0 <= i < |index| && index[i] == r.value && InWindow(index[i], gtype, t)
      && forall j :: 0 <= j < i ==> !InWindow(index[j], gtype, t))
    decreases |index|
  {
    if |index| == 0 then None
    else if InWindow(index[0], gtype, t) then Some(index[0])
    else
      var r := FirstWindow(index[1..], gtype, t);
      assert forall i :: 1 <= i < |index| ==> index[i] == index[1..][i - 1];
      if r.Some? then
        var i :| 0 <= i < |index[1..]| && index[1..][i] == r.value && InWindow(index[1..][i], gtype, t)
          && forall j :: 0 <= j < i ==> !InWindow(index[1..][j], gtype, t);
        assert index[i + 1] == r.value;
        r
      else r
  }

  /**
   * `find_game_for_submission(game_type, submission_dt, games_index)`: `None`
   * for a missing game type or time, otherwise the first window of that game
   * (trimmed and lower-cased on both sides) containing the time.
   */
  function FindGameForSubmission(gameType: string, t: Option<Time>, index: seq<GameEntry>): (r: Option<GameEntry>)
    ensures gameType == "" || t.None? ==> r.None?
    ensures gameType != "" && t.Some? ==>
      (r.Some? <==> exists i :: 0 <= i < |index| && InWindow(index[i], Lower(Strip(gameType)), t.value))
    ensures r.Some? ==> t.Some? && exists i :: (0 <= i < |index| && index[i] == r.value
      && InWindow(index[i], Lower(Strip(gameType)), t.value)
      && forall j :: 0 <= j < i ==> !InWindow(index[j], Lower(Strip(gameType)), t.value))
  {
    if t.None? || gameType == "" then None
    else FirstWindow(index, Lower(Strip(gameType)), t.value)
  }

  /** `by_game[key]`: the entries whose trimmed, lower-cased game is `key`, in index order. */
  function GamesNamed(index: seq<GameEntry>, key: string): (r: seq<GameEntry>)
    ensures forall i :: 0 <= i < |r| ==> Lower(Strip(r[i].game)) == key && r[i] in index
    decreases |index|
  {
    if |index| == 0 then []
    else (if Lower(Strip(index[0].game)) == key then [index[0]] else []) + GamesNamed(index[1..], key)
  }

  /** `next((r for r in candidates if r["start_dt"] <= sub_dt <= r["end_dt"]), None)` */
  function FirstContaining(candidates: seq<GameEntry>, t: Time): (r: Option<GameEntry>)
    ensures r.Some? ==> r.value in candidates
    decreases |candidates|
  {
    if |candidates| == 0 then None
    else if candidates[0].start <= t <= candidates[0].end then Some(candidates[0])
    else FirstContaining(candidates[1..], t)
  }

  /**
   * The lookup `grade_submissions_for_sheet` does through the `by_game`
   * grouping finds the same window as `find_game_for_submission`.
   */
  lemma {:induction false} GroupedLookupAgrees(index: seq<GameEntry>, key: string, t: Time)
    ensures FirstContaining(GamesNamed(index, key), t) == FirstWindow(index, key, t)
    decreases |index|
  {
    if |index| > 0 {
      GroupedLookupAgrees(index[1..], key, t);
      if Lower(Strip(index[0].game)) == key {
        assert GamesNamed(index, key) == [index[0]] + GamesNamed(index[1..], key);
        assert ([index[0]] + GamesNamed(index[1..], key))[1..] == GamesNamed(index[1..], key);
      } else {
        assert GamesNamed(index, key) == GamesNamed(index[1..], key);
      }
    }
  }

  /** For a trimmed, non-empty game type the two lookups agree. */
  lemma GroupedLookupIsFind(gameType: string, t: Time, index: seq<GameEntry>)
    requires gameType != "" && Strip(gameType) == gameType
    ensures FirstContaining(GamesNamed(index, Lower(gameType)), t) == FindGameForSubmission(gameType, Some(t), index)
  {
    GroupedLookupAgrees(index, Lower(gameType), t);
  }

  // ---------------------------------------------------------------------
  // The rubric pasted into the Games sheet (`generate_grading_logic`).

  /**
   * The model's reply for a non-Scrambler game, given the stripped existing
   * guidance, the question and the answer (the prompt text around them is
   * not modelled).
   */
  type Rubric = (string, string, string) -> string

  /** The Scrambler rubric built from the de-duplicated display list. */
  function ScramblerLogic(question: string, display: seq<string>): string {
    if |display| == 0 then "Accepted answer: must use all and only the letters from " + question + "."
    else if |display| == 1 then "Accepted answer: " + display[0]
    else "Accepted answers: " + Join(", ", display)
  }

  predicate IsScrambler(gameType: string) {
    Lower(Strip(gameType)) == "scrambler"
  }

  /** `generate_grading_logic(game_type, question, answer, existing_guidance)` */
  function GenerateGradingLogic(gameType: string, question: string, answer: string, guidance: string, rubric: Rubric): string {
    if IsScrambler(gameType) then ScramblerLogic(question, Scrambler.ParseAnswerList(answer).display)
    else rubric(Strip(guidance), question, answer)
  }

  /**
   * The Scrambler rubric names every accepted answer, and falls back to the
   * all-the-letters rule, ending with the question, when there is none.
   */
  lemma ScramblerLogicNamesAnswers(question: string, display: seq<string>)
    ensures |display| == 0 ==> EndsWith(ScramblerLogic(question, display), question + ".")
    ensures forall i :: 0 <= i < |display| ==> Contains(ScramblerLogic(question, display), display[i])
  {
    var r := ScramblerLogic(question, display);
    if |display| == 0 {
      var pre := "Accepted answer: must use all and only the letters from ";
      assert r == pre + (question + ".");
      assert r[|r| - |question + "."|..] == question + ".";
    } else if |display| == 1 {
      assert IsSubstringAt(display[0], display[0], 0);
      SubstringShift("Accepted answer: ", display[0], display[0], 0);
    } else {
      forall i | 0 <= i < |display| ensures Contains(r, display[i]) {
        JoinContainsParts(", ", display, i);
        var k :| 0 <= k <= |Join(", ", display)| - |display[i]| && IsSubstringAt(Join(", ", display), display[i], k);
        SubstringShift("Accepted answers: ", Join(", ", display), display[i], k);
      }
    }
  }

  /** The Scrambler branch never consults the model. */
  lemma ScramblerIgnoresModel(gameType: string, question: string, answer: string, guidance: string, r1: Rubric, r2: Rubric)
    requires IsScrambler(gameType)
    ensures GenerateGradingLogic(gameType, question, answer, guidance, r1)
         == GenerateGradingLogic(gameType, question, answer, guidance, r2)
  {
  }

  // ---------------------------------------------------------------------
  // Write-once "AI:" marker.

  /** `s.lower().startswith("ai:")` */
  predicate HasAiMarker(s: string) {
    StartsWith(Lower(s), "ai:")
  }

  /** `final_output.strip()` for a row whose stripped guidance is `existing`. */
  function WrittenPrompt(existing: string, logic: string): string {
    Strip(if existing != "" then Strip(existing) + "\nAI: " + logic else "AI: " + logic)
  }

  /** `rstrip` keeps every character up to a non-space one. */
  lemma {:induction false} RStripKeepsThrough(s: string, k: nat)
    requires k < |s| && !IsSpace(s[k])
    ensures k < |RStrip(s)| <= |s| && RStrip(s) == s[..|RStrip(s)|]
  {
    RStripSpec(s);
  }

  /** Stripping a string that starts with a non-space character keeps it up to any later non-space character. */
  lemma StripKeepsThrough(s: string, k: nat)
    requires 0 < |s| && !IsSpace(s[0]) && k < |s| && !IsSpace(s[k])
    ensures |Strip(s)| > k && Strip(s)[..k + 1] == s[..k + 1]
  {
    assert LStrip(s) == s;
    RStripKeepsThrough(s, k);
  }

  /**
   * Once the prompt has been written, a later run reads it back stripped and
   * skips the row exactly when the guidance it started from was empty: an
   * existing note keeps its own first characters and the "AI:" line follows a
   * line break.
   */
  lemma WriteOnceMarker(existing: string, logic: string)
    requires Strip(existing) == existing && !HasAiMarker(existing)
    ensures HasAiMarker(Strip(WrittenPrompt(existing, logic))) <==> existing == ""
  {
    var w := WrittenPrompt(existing, logic);
    StripIdempotent(if existing != "" then Strip(existing) + "\nAI: " + logic else "AI: " + logic);
    if existing == "" {
      var f := "AI: " + logic;
      StripKeepsThrough(f, 2);
      assert Lower(w)[..3] == Lower(w[..3]);
    } else {
      StripSpec(existing);
      var f := existing + "\nAI: " + logic;
      var n := |existing|;
      assert f[n + 1] == 'A' && f[0] == existing[0] && f[n - 1] == existing[n - 1];
      StripKeepsThrough(f, n + 1);
      assert w[..n] == existing by { assert w[..n] == f[..n + 2][..n]; }
      assert w[n] == '\n';
      if n >= 3 {
        assert Lower(w)[..3] == Lower(existing)[..3];
      } else {
        assert Lower(w)[n] == '\n';
      }
    }
  }

  // ---------------------------------------------------------------------
  // The grading model's reply (`_parse_grade_confidence`).

  /** The `Correctness:\s*(Correct|Incorrect)` match at `i`, ignoring case, with the captured word capitalised. */
  function GradeAt(text: string, i: nat): (r: Option<string>)
    ensures r.Some? ==> r.value == "Correct" || r.value == "Incorrect"
  {
    if !Scrambler.WordAtIgnoringCase(text, i, "correctness:") then None
    else
      var j := Scrambler.SkipSpaces(text, i + 12);
      if Scrambler.WordAtIgnoringCase(text, j, "correct") then Some("Correct")
      else if Scrambler.WordAtIgnoringCase(text, j, "incorrect") then Some("Incorrect")
      else None
  }

  /** `re.search` from position `i`: the leftmost match. */
  function GradeSearch(text: string, i: nat): (r: Option<string>)
    requires i <= |text|
    ensures r.None? <==> forall k :: i <= k <= |text| ==> GradeAt(text, k).None?
    ensures r.Some? ==> exists k :: (i <= k <= |text| && GradeAt(text, k) == r
      && forall j :: i <= j < k ==> GradeAt(text, j).None?)
    decreases |text| - i
  {
    if GradeAt(text, i).Some? then GradeAt(text, i)
    else if i == |text| then None
    else GradeSearch(text, i + 1)
  }

  /**
   * The grade: "Correct" or "Incorrect" from the leftmost `Correctness:`
   * match, and "Uncertain" exactly when nothing matches.
   */
  function ParseGrade(text: string): (g: string)
    ensures g == "Correct" || g == "Incorrect" || g == "Uncertain"
    ensures g == "Uncertain" <==> forall k :: 0 <= k <= |text| ==> GradeAt(text, k).None?
    ensures g != "Uncertain" ==> exists k :: (0 <= k <= |text| && GradeAt(text, k) == Some(g)
      && forall j :: 0 <= j < k ==> GradeAt(text, j).None?)
  {
    match GradeSearch(text, 0)
    case Some(g) => g
    case None => "Uncertain"
  }

  /** The numeral captured by `Confidence:\s*([0-9]+(?:\.[0-9]+)?)`, or none. */
  datatype Confidence = NotGiven | Numeral(whole: string, fraction: Option<string>)

  predicate WellFormedConfidence(c: Confidence) {
    c.Numeral? ==> IsDigits(c.whole) && (c.fraction.Some? ==> IsDigits(c.fraction.value))
  }

  /** The first position at or after `i` that is not an ASCII digit. */
  function SkipDigits(s: string, i: nat): (j: nat)
    requires i <= |s|
    ensures i <= j <= |s|
    ensures j < |s| ==> !IsAsciiDigit(s[j])
    ensures forall k :: i <= k < j ==> IsAsciiDigit(s[k])
    decreases |s| - i
  {
    if i < |s| && IsAsciiDigit(s[i]) then SkipDigits(s, i + 1) else i
  }

  /** The `Confidence:` match at `i`, ignoring case. */
  function ConfidenceAt(text: string, i: nat): (r: Option<Confidence>)
    ensures r.Some? ==> r.value.Numeral? && WellFormedConfidence(r.value)
  {
    if !Scrambler.WordAtIgnoringCase(text, i, "confidence:") then None
    else
      var j := Scrambler.SkipSpaces(text, i + 11);
      var k := SkipDigits(text, j);
      if k == j then None
      else if k + 1 < |text| && text[k] == '.' && IsAsciiDigit(text[k + 1]) then
        Some(Numeral(text[j..k], Some(text[k + 1..SkipDigits(text, k + 1)])))
      else Some(Numeral(text[j..k], None))
  }

  function ConfidenceSearch(text: string, i: nat): (r: Option<Confidence>)
    requires i <= |text|
    ensures r.Some? ==> r.value.Numeral? && WellFormedConfidence(r.value)
    ensures r.None? <==> forall k :: i <= k <= |text| ==> ConfidenceAt(text, k).None?
    ensures r.Some? ==> exists k :: (i <= k <= |text| && ConfidenceAt(text, k) == r
      && forall j :: i <= j < k ==> ConfidenceAt(text, j).None?)
    decreases |text| - i
  {
    if ConfidenceAt(text, i).Some? then ConfidenceAt(text, i)
    else if i == |text| then None
    else ConfidenceSearch(text, i + 1)
  }

  /** The confidence numeral of the leftmost match, or `NotGiven`. */
  function ParseConfidence(text: string): (c: Confidence)
    ensures WellFormedConfidence(c)
    ensures c == NotGiven <==> forall k :: 0 <= k <= |text| ==> ConfidenceAt(text, k).None?
  {
    match ConfidenceSearch(text, 0)
    case Some(c) => c
    case None => NotGiven
  }

  /**
   * `f"{int(round(val))}%"`, with a value up to 1 read as a fraction of 100;
   * "N/A" when there is no numeral. A numeral with a decimal part goes
   * through floating-point rounding, which `fractional` stands for.
   */
  function ConfidenceText(c: Confidence, fractional: (string, string) -> string): string
    requires WellFormedConfidence(c)
  {
    match c
    case NotGiven => "N/A"
    case Numeral(w, None) =>
      var v := ParseNat(w);
      NatToString(if v <= 1 then v * 100 else v) + "%"
    case Numeral(w, Some(f)) => fractional(w, f)
  }

  /** `_parse_grade_confidence(text)` */
  function ParseGradeConfidence(text: string, fractional: (string, string) -> string): (string, string) {
    (ParseGrade(text), ConfidenceText(ParseConfidence(text), fractional))
  }

  /** The reply the grading prompt asks for. */
  function ReplyText(grade: string, confidence: string): string {
    "Correctness: " + grade + "\nConfidence: " + confidence
  }

  lemma ReplyGradeAtStart(g: string, n: string)
    requires g == "Correct" || g == "Incorrect"
    ensures GradeAt(ReplyText(g, n), 0) == Some(g)
  {
    var text := ReplyText(g, n);
    assert text[..13] == "Correctness: ";
    assert text[0..12] == "Correctness:";
    assert Lower("Correctness:") == "correctness:";
    assert Scrambler.SkipSpaces(text, 12) == 13 by {
      assert IsSpace(text[12]) && text[13] == g[0];
    }
    if g == "Correct" {
      assert text[13..20] == "Correct";
      assert Lower("Correct") == "correct";
    } else {
      assert text[13..22] == "Incorrect";
      assert text[13..20] == "Incorre";
      assert Lower("Incorre")[0] == 'i';
      assert Lower("Incorrect") == "incorrect";
    }
  }

  /** A `confidence:` match needs a colon ten characters on and a `c` at its start. */
  lemma ConfidenceAtShape(text: string, i: nat)
    ensures ConfidenceAt(text, i).Some? ==>
      i + 11 <= |text| && text[i + 10] == ':' && LowerChar(text[i]) == 'c'
  {
    if ConfidenceAt(text, i).Some? {
      assert Lower(text[i..i + 11])[10] == ':' && Lower(text[i..i + 11])[0] == 'c';
    }
  }

  /** The only colon before the "Confidence:" line ends "Correctness:". */
  lemma ReplyColons(g: string, n: string, q: nat)
    requires g == "Correct" || g == "Incorrect"
    requires q < 24 + |g| && q < |ReplyText(g, n)| && q != 11
    ensures ReplyText(g, n)[q] != ':'
  {
    var text := ReplyText(g, n);
    if q < 13 {
      assert text[q] == "Correctness: "[q];
    } else if q < 13 + |g| {
      assert text[q] == g[q - 13];
    } else if q > 13 + |g| {
      assert text[q] == "Confidence: "[q - 14 - |g|];
    }
  }

  /** Before the "Confidence:" line no position can begin a case-insensitive "confidence:". */
  lemma NoConfidenceBefore(g: string, n: string, i: nat)
    requires g == "Correct" || g == "Incorrect"
    requires i < 14 + |g|
    ensures ConfidenceAt(ReplyText(g, n), i).None?
  {
    var text := ReplyText(g, n);
    ConfidenceAtShape(text, i);
    if i + 10 < |text| && i != 1 {
      ReplyColons(g, n, i + 10);
    }
    if i == 1 {
      assert text[1] == 'o';
    }
  }

  lemma ConfidenceLineAt(g: string, n: string)
    requires g == "Correct" || g == "Incorrect"
    requires IsDigits(n)
    ensures ConfidenceAt(ReplyText(g, n), 14 + |g|) == Some(Numeral(n, None))
  {
    var text := ReplyText(g, n);
    assert text[14 + |g|..] == "Confidence: " + n;
    ConfidenceLineOf(text, 14 + |g|, n);
  }

  /** A line `Confidence: <digits>` running to the end of the text reads as that whole number. */
  lemma ConfidenceLineOf(text: string, p: nat, n: string)
    requires p <= |text| && text[p..] == "Confidence: " + n && IsDigits(n)
    ensures ConfidenceAt(text, p) == Some(Numeral(n, None))
  {
    var tail := text[p..];
    assert text[p..p + 11] == tail[..11] == "Confidence:";
    assert Lower("Confidence:") == "confidence:";
    assert Scrambler.WordAtIgnoringCase(text, p, "confidence:");
    assert text[p + 11] == tail[11] == ' ';
    assert text[p + 12] == tail[12] == n[0];
    assert Scrambler.SkipSpaces(text, p + 11) == p + 12;
    assert text[p + 12..|text|] == n;
    SkipDigitsToEnd(text, p + 12);
  }

  lemma {:induction false} SkipDigitsToEnd(s: string, i: nat)
    requires i <= |s| && forall k :: i <= k < |s| ==> IsAsciiDigit(s[k])
    ensures SkipDigits(s, i) == |s|
    decreases |s| - i
  {
    if i < |s| {
      SkipDigitsToEnd(s, i + 1);
    }
  }

  /**
   * A reply in the requested format parses back to its grade, and to its
   * confidence numeral as a whole number.
   */
  lemma ReplyRoundTrip(g: string, n: string)
    requires g == "Correct" || g == "Incorrect"
    requires IsDigits(n)
    ensures ParseGrade(ReplyText(g, n)) == g
    ensures ParseConfidence(ReplyText(g, n)) == Numeral(n, None)
  {
    ReplyGradeAtStart(g, n);
    ReplyConfidenceRoundTrip(g, n);
  }

  lemma ReplyConfidenceRoundTrip(g: string, n: string)
    requires g == "Correct" || g == "Incorrect"
    requires IsDigits(n)
    ensures ParseConfidence(ReplyText(g, n)) == Numeral(n, None)
  {
    var text := ReplyText(g, n);
    var p := 14 + |g|;
    ConfidenceLineAt(g, n);
    forall i | 0 <= i < p ensures ConfidenceAt(text, i).None? {
      NoConfidenceBefore(g, n, i);
    }
    FirstConfidence(text, p, Numeral(n, None));
  }

  /** The confidence read from a text is the one at the first position where a `confidence:` match parses. */
  lemma FirstConfidence(text: string, p: nat, c: Confidence)
    requires p <= |text| && ConfidenceAt(text, p) == Some(c)
    requires forall i :: 0 <= i < p ==> ConfidenceAt(text, i).None?
    ensures ParseConfidence(text) == c
  {
    var r := ConfidenceSearch(text, 0);
    var k :| 0 <= k <= |text| && ConfidenceAt(text, k) == r && forall j :: 0 <= j < k ==> ConfidenceAt(text, j).None?;
    assert k == p;
  }

  /** A whole-number confidence up to 1 is read as a fraction: "1" reports "100%". */
  lemma ConfidenceOneIsHundred(fractional: (string, string) -> string)
    ensures ConfidenceText(Numeral("1", None), fractional) == "100%"
  {
    assert ParseNat("1") == 1;
    assert NatToString(100) == "100" by {
      assert NatToString(10) == "10";
    }
  }

  // ---------------------------------------------------------------------
  // Effective correctness (`is_marked_correct`).

  /** `entry.get(key, "").strip().lower()`, "" when the key is absent. */
  function LoweredField(entry: map<string, string>, key: string): string {
    if key in entry then Lower(Strip(entry[key])) else ""
  }

  /** `is_marked_correct(entry)` */
  predicate IsMarkedCorrect(entry: map<string, string>) {
    var o := LoweredField(entry, "Override");
    o == "correct" || (o == "" && LoweredField(entry, "AI Grade") == "correct")
  }

  /** A non-blank override decides on its own: the AI grade, whatever it is, does not matter. */
  lemma OverrideTakesPrecedence(entry: map<string, string>, grade: string)
    requires LoweredField(entry, "Override") != ""
    ensures IsMarkedCorrect(entry) <==> LoweredField(entry, "Override") == "correct"
    ensures IsMarkedCorrect(entry["AI Grade" := grade]) == IsMarkedCorrect(entry)
  {
    assert "Override" != "AI Grade";
    assert LoweredField(entry["AI Grade" := grade], "Override") == LoweredField(entry, "Override");
  }

  /** With no override, or a blank one, the AI grade decides. */
  lemma BlankOverrideDefersToGrade(entry: map<string, string>)
    requires "Override" !in entry || IsBlank(entry["Override"])
    ensures IsMarkedCorrect(entry) <==> LoweredField(entry, "AI Grade") == "correct"
  {
    if "Override" in entry {
      StripSpec(entry["Override"]);
    }
  }
}
