/**
 * The review-ID allocator (`getNextCodeReviewId`): it reads the rows of the
 * `CodeReviewSummary` sheet, finds the last stored review ID and computes the
 * next one, of the shape `CD_RV_NN`.
 */
module ReviewId {
  import opened Wrappers
  import opened Decimal
  import opened Strings

  /** The raw cells of one spreadsheet row; a cell is None when it is `undefined`. */
  type Row = seq<Option<string>>

  /** The fixed prefix of every review ID. */
  const Prefix: string := "CD_RV_"

  /** Why computing the next ID fails. */
  datatype IdError =
    | UndefinedIdCell  // the row found has no third cell: `undefined.split` throws
    | NotANumber       // the suffix is not a decimal number: `Number(...)` is NaN

  /** `row._rawData[i]`: reading past the end of the row gives `undefined`. */
  function Cell(row: Row, i: nat): (c: Option<string>)
    ensures i >= |row| ==> c.None?
  {
    if i < |row| then row[i] else None
  }

  /** The backward scan visits row `k`: indices `length-2` down to 1. */
  predicate Examined(rows: seq<Row>, k: int) {
    1 <= k <= |rows| - 2
  }

  /** Row `k` is visited and its first cell is not `undefined`/`null` (loose `!=`). */
  predicate Marked(rows: seq<Row>, k: int) {
    Examined(rows, k) && Cell(rows[k], 0).Some?
  }

  /**
   * The value of `lastCodeReviewId` once the scan has started at `index`:
   * the third cell of the first marked row at or below `index` (and above 0),
   * or the initial `""` when there is none.
   */
  function ScanFrom(rows: seq<Row>, index: int): (r: Option<string>)
    requires index < |rows|
    ensures r == Some("") || exists k :: 1 <= k <= index && Cell(rows[k], 0).Some? && r == Cell(rows[k], 2)
    decreases index
  {
    if index <= 0 then Some("")
    else if Cell(rows[index], 0).Some? then Cell(rows[index], 2)
    else ScanFrom(rows, index - 1)
  }

  /** The value of `lastCodeReviewId` after the whole scan. */
  function LastIdCell(rows: seq<Row>): (r: Option<string>)
    ensures |rows| < 3 ==> r == Some("")
    ensures r == Some("") || exists k :: Marked(rows, k) && r == Cell(rows[k], 2)
  {
    ScanFrom(rows, |rows| - 2)
  }

  /**
   * The scan loop of `getNextCodeReviewId`: from index `length-2` down to 1,
   * stopping at the first row whose first cell is defined.
   */
  method ScanLastReviewId(rows: seq<Row>) returns (last: Option<string>)
    ensures last == LastIdCell(rows)
    ensures |rows| < 3 ==> last == Some("")
  {
    last := Some("");
    var index := |rows| - 2;
    while index > 0
      invariant index <= |rows| - 2
      invariant LastIdCell(rows) == ScanFrom(rows, index)
      decreases index
    {
      var element := rows[index];
      if Cell(element, 0).Some? {
        last := Cell(element, 2);
        break;
      }
      index := index - 1;
    }
  }

  /** When no examined row is marked, the scan leaves the initial `""`. */
  lemma {:induction false} ScanFindsNothing(rows: seq<Row>, index: int)
    requires index <= |rows| - 2
    requires forall k :: 1 <= k <= index ==> !Marked(rows, k)
    ensures ScanFrom(rows, index) == Some("")
    decreases index
  {
    if index > 0 {
      assert !Marked(rows, index) && Examined(rows, index);
      ScanFindsNothing(rows, index - 1);
    }
  }

  /**
   * The scan returns the third cell of the marked row `k` when no examined
   * row above `k` is marked.
   */
  lemma {:induction false} ScanFindsHighestMarked(rows: seq<Row>, index: int, k: int)
    requires index <= |rows| - 2
    requires 1 <= k <= index && Marked(rows, k)
    requires forall j :: k < j <= index ==> !Marked(rows, j)
    ensures ScanFrom(rows, index) == Cell(rows[k], 2)
    decreases index
  {
    if index > k {
      assert !Marked(rows, index) && Examined(rows, index);
      ScanFindsHighestMarked(rows, index - 1, k);
    }
  }

  /** `lastCodeReviewId` stays `""` when no examined row has a defined first cell. */
  lemma LastIdCellNothingMarked(rows: seq<Row>)
    requires forall k :: Examined(rows, k) ==> !Marked(rows, k)
    ensures LastIdCell(rows) == Some("")
  {
    ScanFindsNothing(rows, |rows| - 2);
  }

  /**
   * `lastCodeReviewId` is the third cell of the highest-indexed examined row
   * whose first cell is defined.
   */
  lemma LastIdCellHighestMarked(rows: seq<Row>, k: int)
    requires Marked(rows, k)
    requires forall j :: k < j <= |rows| - 2 ==> !Marked(rows, j)
    ensures LastIdCell(rows) == Cell(rows[k], 2)
  {
    ScanFindsHighestMarked(rows, |rows| - 2, k);
  }

  /**
   * The first and the last row are never read: two sheets that agree on
   * every examined row give the same `lastCodeReviewId`.
   */
  lemma ScanIgnoresEnds(rows: seq<Row>, other: seq<Row>)
    requires |rows| == |other|
    requires forall k :: Examined(rows, k) ==> rows[k] == other[k]
    ensures LastIdCell(rows) == LastIdCell(other)
  {
    ScanAgrees(rows, other, |rows| - 2);
  }

  /** Scans that start at the same index over rows that agree there and below give the same value. */
  lemma {:induction false} ScanAgrees(rows: seq<Row>, other: seq<Row>, index: int)
    requires |rows| == |other| && index <= |rows| - 2
    requires forall k :: Examined(rows, k) ==> rows[k] == other[k]
    ensures ScanFrom(rows, index) == ScanFrom(other, index)
    decreases index
  {
    if index > 0 {
      assert Examined(rows, index);
      ScanAgrees(rows, other, index - 1);
    }
  }

  /** `Number(id.split("CD_RV_")[1])`, with NaN as None. */
  function ParseSuffix(id: string): (r: Option<nat>)
    ensures !Occurs(id, Prefix) ==> r.None?
  {
    match SecondField(id, Prefix)
    case None => None
    case Some(field) => JsNumber(field)
  }

  /** `"CD_RV_" + String(n).padStart(2, "0")`. */
  function FormatId(n: nat): (id: string)
    ensures |id| >= |Prefix| + 2 && id[..|Prefix|] == Prefix
    ensures AllDigits(id[|Prefix|..])
    ensures |id| > |Prefix| + 2 ==> id[|Prefix|] != '0'
  {
    Prefix + PadStart(Dec(n), 2, '0')
  }

  /** A digit string never contains the prefix, whose first letter is not a digit. */
  lemma DigitsLackPrefix(d: string)
    requires AllDigits(d)
    ensures !Occurs(d, Prefix)
  {
    forall j: nat ensures !OccursAt(d, Prefix, j) {
      if j + |Prefix| <= |d| {
        assert d[j..j + |Prefix|][0] == d[j];
      }
    }
  }

  /** Parsing a formatted ID gives back its number. */
  lemma ParseFormatId(n: nat)
    ensures ParseSuffix(FormatId(n)) == Some(n)
  {
    var digits := Dec(n);
    var padded := PadStart(digits, 2, '0');
    DigitsLackPrefix(padded);
    SecondFieldOfPrefixed(Prefix, padded);
    ValueOfDec(n);
    if |digits| < 2 {
      assert padded == ['0'] + digits;
      ValueLeadingZero(digits);
    }
  }

  /** Distinct numbers give distinct IDs. */
  lemma FormatIdInjective(m: nat, n: nat)
    ensures m != n ==> FormatId(m) != FormatId(n)
  {
    ParseFormatId(m);
    ParseFormatId(n);
  }

  /**
   * The ID that follows `lastCodeReviewId`: `CD_RV_01` after the initial
   * `""`, otherwise the parsed suffix plus one, padded to two digits.
   */
  function NextReviewId(last: Option<string>): (r: Result<string, IdError>)
    ensures r == Err(UndefinedIdCell) <==> last.None?
    ensures r == Err(NotANumber) <==> last.Some? && last.value != "" && ParseSuffix(last.value).None?
    ensures r.Ok? ==> |r.value| >= |Prefix| + 2 && r.value[..|Prefix|] == Prefix
    ensures r.Ok? ==> AllDigits(r.value[|Prefix|..]) && (|r.value| > |Prefix| + 2 ==> r.value[|Prefix|] != '0')
    ensures r.Ok? ==> ParseSuffix(r.value).Some? && ParseSuffix(r.value).value >= 1
    ensures r.Ok? && last.value != "" ==>
      ParseSuffix(last.value).Some? && ParseSuffix(r.value).value == ParseSuffix(last.value).value + 1
  {
    match last
    case None => Err(UndefinedIdCell)
    case Some(id) =>
      if id == "" then
        // FormatId(1) is "CD_RV_01" (lemma NextOfNothing)
        ParseFormatId(1);
        Ok(FormatId(1))
      else
        match ParseSuffix(id)
        case None => Err(NotANumber)
        case Some(n) =>
          ParseFormatId(n + 1);
          Ok(FormatId(n + 1))
  }

  /** Nothing found (the initial `""`) yields exactly `CD_RV_01`, the ID numbered 1. */
  lemma NextOfNothing()
    ensures NextReviewId(Some("")) == Ok("CD_RV_01") == Ok(FormatId(1))
  {
    assert FormatId(1) == "CD_RV_01";
  }

  /** Any decimal suffix is incremented and re-padded, never truncated. */
  lemma NextOfDecimal(d: string)
    requires AllDigits(d)
    ensures NextReviewId(Some(Prefix + d)) == Ok(FormatId(Value(d) + 1))
  {
    var id := Prefix + d;
    DigitsLackPrefix(d);
    SecondFieldOfPrefixed(Prefix, d);
    assert ParseSuffix(id) == Some(Value(d));
    assert id != "" by { assert |id| >= |Prefix|; }
  }

  /** The ID after a formatted ID is the formatted successor. */
  lemma NextOfFormatted(n: nat)
    ensures NextReviewId(Some(FormatId(n))) == Ok(FormatId(n + 1))
  {
    var id := FormatId(n);
    assert id != "";
    ParseFormatId(n);
    assert ParseSuffix(id) == Some(n);
  }

  /** `CD_RV_07` is followed by `CD_RV_08`. */
  lemma NextOfSeven()
    ensures NextReviewId(Some("CD_RV_07")) == Ok("CD_RV_08")
  {
    var d := "07";
    assert "CD_RV_07" == Prefix + d;
    NextOfDecimal(d);
    ValueSeven();
    FormatEight();
  }

  /** `Number("07")` is 7. */
  lemma ValueSeven()
    ensures AllDigits("07") && Value("07") == 7
  {
    var d := "07";
    var zero := d[..1];
    assert zero == "0" && zero[..0] == [];
    assert Value(zero) == 0;
    assert DigitValue(d[1]) == 7;
  }

  /** 8 formats as `CD_RV_08`: one pad digit. */
  lemma FormatEight()
    ensures FormatId(8) == "CD_RV_08"
  {
    var digits := Dec(8);
    assert digits == "8";
    assert PadStart(digits, 2, '0') == "08" by {
      assert Repeat('0', 1) == "0";
    }
  }

  /** `CD_RV_99` is followed by `CD_RV_100`: the suffix widens. */
  lemma NextOfNinetyNine()
    ensures NextReviewId(Some("CD_RV_99")) == Ok("CD_RV_100")
  {
    var d := "99";
    assert "CD_RV_99" == Prefix + d;
    NextOfDecimal(d);
    ValueNinetyNine();
    FormatHundred();
  }

  /** `Number("99")` is 99. */
  lemma ValueNinetyNine()
    ensures AllDigits("99") && Value("99") == 99
  {
    var d := "99";
    var nine := d[..1];
    assert nine == "9" && nine[..0] == [];
    assert Value(nine) == 9;
  }

  /** `CD_RV_100` is the ID numbered 100: the suffix is three digits. */
  lemma FormatHundred()
    ensures FormatId(100) == "CD_RV_100"
  {
    assert Dec(1) == "1";
    assert Dec(10) == Dec(1) + "0";
    assert Dec(100) == Dec(10) + "0";
    assert PadStart("100", 2, '0') == "100";
  }

  /** `getNextCodeReviewId` once the rows have been read. */
  method GetNextCodeReviewId(rows: seq<Row>) returns (r: Result<string, IdError>)
    ensures r == NextReviewId(LastIdCell(rows))
    ensures |rows| < 3 ==> r == Ok("CD_RV_01")
  {
    var last := ScanLastReviewId(rows);
    r := NextReviewId(last);
    if |rows| < 3 {
      NextOfNothing();
    }
  }

  /**
   * When the highest marked row holds the ID numbered `n`, the allocator
   * returns the ID numbered `n + 1`.
   */
  lemma AllocateAfterStored(rows: seq<Row>, k: int, n: nat)
    requires Marked(rows, k) && Cell(rows[k], 2) == Some(FormatId(n))
    requires forall j :: k < j <= |rows| - 2 ==> !Marked(rows, j)
    ensures NextReviewId(LastIdCell(rows)) == Ok(FormatId(n + 1))
  {
    LastIdCellHighestMarked(rows, k);
    NextOfFormatted(n);
  }

  /**
   * The newest row is never read: on a sheet whose rows all hold IDs, the
   * allocator repeats the ID of the last row.
   */
  lemma LastRowIdRepeated()
    ensures var rows := [[Some("1"), None, Some(FormatId(1))],
                         [Some("2"), None, Some(FormatId(2))],
                         [Some("3"), None, Some(FormatId(3))]];
      NextReviewId(LastIdCell(rows)) == Ok(FormatId(3))
  {
    var rows := [[Some("1"), None, Some(FormatId(1))],
                 [Some("2"), None, Some(FormatId(2))],
                 [Some("3"), None, Some(FormatId(3))]];
    assert LastIdCell(rows) == Some(FormatId(2));
    NextOfFormatted(2);
  }
}
