/** `src/helpers/utils.py`: sheet rows to dictionaries. */
module Utils {
  import opened Text

  /** `any(cell.strip() for cell in row)` */
  predicate NonBlankRow(row: seq<string>)
    decreases |row|
  {
    |row| > 0 && (Strip(row[0]) != "" || NonBlankRow(row[1..]))
  }

  function Min(a: nat, b: nat): nat { if a < b then a else b }

  /** `dict(zip(header, row))`: pairs up to the shorter length, a later duplicate key wins. */
  function ZipDict(header: seq<string>, row: seq<string>): map<string, string>
    decreases |header|
  {
    var n := Min(|header|, |row|);
    if n == 0 then map[] else ZipDict(header[..n - 1], row[..n - 1])[header[n - 1] := row[n - 1]]
  }

  /** The last position below `n` whose header is `k`. */
  predicate IsLastHeaderAt(header: seq<string>, n: nat, k: string, i: nat) {
    i < n <= |header| && header[i] == k && forall j :: i < j < n ==> header[j] != k
  }

  /**
   * The keys of `dict(zip(header, row))` are the headers paired with a cell, and
   * each maps to the cell under its last occurrence among them.
   */
  lemma {:induction false} ZipDictSpec(header: seq<string>, row: seq<string>)
    ensures forall k :: k in ZipDict(header, row) <==>
      exists i :: 0 <= i < Min(|header|, |row|) && header[i] == k
    ensures forall k: string, i: nat :: IsLastHeaderAt(header, Min(|header|, |row|), k, i) ==>
      k in ZipDict(header, row) && ZipDict(header, row)[k] == row[i]
    decreases |header|
  {
    var n := Min(|header|, |row|);
    if n > 0 {
      var h', r' := header[..n - 1], row[..n - 1];
      ZipDictSpec(h', r');
      assert Min(|h'|, |r'|) == n - 1;
      forall k: string, i: nat | IsLastHeaderAt(header, n, k, i)
        ensures k in ZipDict(header, row) && ZipDict(header, row)[k] == row[i]
      {
        if i < n - 1 {
          assert IsLastHeaderAt(h', n - 1, k, i);
        }
      }
      forall k ensures k in ZipDict(header, row) <==> exists i :: 0 <= i < n && header[i] == k {
        if k in ZipDict(h', r') {
          var i :| 0 <= i < n - 1 && h'[i] == k;
          assert header[i] == k;
        }
        if exists i :: 0 <= i < n && header[i] == k {
          var i :| 0 <= i < n && header[i] == k;
          if i < n - 1 { assert h'[i] == k; }
        }
      }
    }
  }

  /** `[f(row) for row in rows if any(cell.strip() for cell in row)]` */
  function MapNonBlank<T>(rows: seq<seq<string>>, f: seq<string> -> T): seq<T>
    decreases |rows|
  {
    if |rows| == 0 then []
    else
      var last := rows[|rows| - 1];
      MapNonBlank(rows[..|rows| - 1], f) + (if NonBlankRow(last) then [f(last)] else [])
  }

  /** `rows_to_dicts(data_rows, header)` */
  function RowsToDicts(rows: seq<seq<string>>, header: seq<string>): seq<map<string, string>> {
    MapNonBlank(rows, row => ZipDict(header, row))
  }

  /** The positions holding `true`, in order. */
  function TruePositions(flags: seq<bool>): seq<nat>
    decreases |flags|
  {
    if |flags| == 0 then []
    else TruePositions(flags[..|flags| - 1]) + (if flags[|flags| - 1] then [|flags| - 1] else [])
  }

  lemma {:induction false} TruePositionsSpec(flags: seq<bool>)
    ensures forall i :: 0 <= i < |TruePositions(flags)| ==>
      TruePositions(flags)[i] < |flags| && flags[TruePositions(flags)[i]]
    ensures forall i, j :: 0 <= i < j < |TruePositions(flags)| ==>
      TruePositions(flags)[i] < TruePositions(flags)[j]
    ensures forall k :: 0 <= k < |flags| && flags[k] ==> k in TruePositions(flags)
    decreases |flags|
  {
    if |flags| > 0 {
      var n := |flags| - 1;
      TruePositionsSpec(flags[..n]);
      var rest := TruePositions(flags[..n]);
      assert TruePositions(flags) == rest + (if flags[n] then [n] else []);
      forall i | 0 <= i < |rest| ensures rest[i] < n && flags[..n][rest[i]] == flags[rest[i]] {
      }
      forall k | 0 <= k < n && flags[k] ensures k in rest {
        assert flags[..n][k] == flags[k];
      }
    }
  }

  /** The positions of the non-blank rows, in order. */
  function NonBlankPositions(rows: seq<seq<string>>): seq<nat> {
    TruePositions(seq(|rows|, i requires 0 <= i < |rows| => NonBlankRow(rows[i])))
  }

  /** The positions listed are increasing, and are exactly those of the non-blank rows. */
  lemma NonBlankPositionsSpec(rows: seq<seq<string>>)
    ensures forall i :: 0 <= i < |NonBlankPositions(rows)| ==>
      NonBlankPositions(rows)[i] < |rows| && NonBlankRow(rows[NonBlankPositions(rows)[i]])
    ensures forall i, j :: 0 <= i < j < |NonBlankPositions(rows)| ==>
      NonBlankPositions(rows)[i] < NonBlankPositions(rows)[j]
    ensures forall k :: 0 <= k < |rows| && NonBlankRow(rows[k]) ==> k in NonBlankPositions(rows)
  {
    TruePositionsSpec(seq(|rows|, i requires 0 <= i < |rows| => NonBlankRow(rows[i])));
  }

  lemma NonBlankPositionsSnoc(rows: seq<seq<string>>)
    requires |rows| > 0
    ensures NonBlankPositions(rows) == NonBlankPositions(rows[..|rows| - 1]) +
      (if NonBlankRow(rows[|rows| - 1]) then [|rows| - 1] else [])
  {
    var n := |rows| - 1;
    var flags := seq(|rows|, i requires 0 <= i < |rows| => NonBlankRow(rows[i]));
    assert flags[..n] == seq(n, i requires 0 <= i < n => NonBlankRow(rows[..n][i]));
  }

  lemma {:induction false} MapNonBlankSpec<T>(rows: seq<seq<string>>, f: seq<string> -> T)
    ensures var ks := NonBlankPositions(rows);
      |MapNonBlank(rows, f)| == |ks| &&
      forall i :: 0 <= i < |ks| ==> ks[i] < |rows| && MapNonBlank(rows, f)[i] == f(rows[ks[i]])
    decreases |rows|
  {
    if |rows| > 0 {
      var n := |rows| - 1;
      MapNonBlankSpec(rows[..n], f);
      var ks := NonBlankPositions(rows[..n]);
      NonBlankPositionsSnoc(rows);
      forall i | 0 <= i < |ks| ensures rows[..n][ks[i]] == rows[ks[i]] { }
    }
  }

  /**
   * `rows_to_dicts` drops exactly the blank rows, keeps the others in order and
   * turns each into `dict(zip(header, row))`.
   */
  lemma RowsToDictsSpec(rows: seq<seq<string>>, header: seq<string>)
    ensures var ks := NonBlankPositions(rows);
      |RowsToDicts(rows, header)| == |ks| &&
      forall i :: 0 <= i < |ks| ==> ks[i] < |rows| && RowsToDicts(rows, header)[i] == ZipDict(header, rows[ks[i]])
  {
    MapNonBlankSpec(rows, row => ZipDict(header, row));
  }
}
