/**
 * The implicit-range CSV shape shared by the two loaders: each row gives the
 * last address of a range and its data; a range starts one past the previous
 * row's last address, and the first one starts at 0. One bad field anywhere
 * rejects the whole file.
 */
module CsvRanges {
  import opened Machine
  import opened Wrappers
  import opened Strconv
  import opened RangeTable

  /** The two fields of one CSV record, `r[0]` and `r[1]`. */
  type Row = (string, string)

  type IpRange = Entry<i32>

  /** A field converter, such as `strconv.Atoi`. */
  type Conv = string -> Result<i64, NumError>

  /**
   * The two converted fields of a row, or the error a `converr` is left
   * holding: the second field's error when it has one, else the first's.
   */
  function ParseRow(row: Row, conv: Conv): Result<(i64, i64), NumError> {
    var to, data := conv(row.0), conv(row.1);
    if data.Err? then Err(data.error)
    else if to.Err? then Err(to.error)
    else Ok((to.value, data.value))
  }

  /** The range a row with converted fields `p` yields after a row that ended at `prev`. */
  function RowEntry(prev: int, p: (i64, i64)): IpRange {
    Entry(Uint32Of(prev + 1), Uint32Of(p.0), Int32Of(p.1))
  }

  /** The ranges built from `rows` when the row before them ended at `prev`. */
  function Build(rows: seq<Row>, prev: int, conv: Conv): Result<seq<IpRange>, NumError>
  {
    if rows == [] then Ok([])
    else
      var row := ParseRow(rows[0], conv);
      if row.Err? then Err(row.error)
      else Prepend([RowEntry(prev, row.value)], Build(rows[1..], row.value.0, conv))
  }

  /** The whole load: `prevIP` starts at -1, so the first range starts at 0. */
  function FromRows(rows: seq<Row>, conv: Conv): Result<seq<IpRange>, NumError> {
    Build(rows, -1, conv)
  }

  /** `ips ++ r` when `r` is a list, `r` itself when it is an error. */
  function Prepend(ips: seq<IpRange>, r: Result<seq<IpRange>, NumError>): Result<seq<IpRange>, NumError> {
    match r
    case Err(e) => Err(e)
    case Ok(rest) => Ok(ips + rest)
  }

  /** Prepending twice is prepending the concatenation. */
  lemma PrependPrepend(a: seq<IpRange>, b: seq<IpRange>, r: Result<seq<IpRange>, NumError>)
    ensures Prepend(a, Prepend(b, r)) == Prepend(a + b, r)
  {
    if r.Ok? {
      assert a + (b + r.value) == (a + b) + r.value;
    }
  }

  /** One step of the load: the row at `k` either fails or contributes one range. */
  lemma BuildStep(rows: seq<Row>, k: nat, prev: int, conv: Conv)
    requires k < |rows|
    ensures var row := ParseRow(rows[k], conv);
      Build(rows[k..], prev, conv) ==
        if row.Err? then Err(row.error)
        else Prepend([RowEntry(prev, row.value)], Build(rows[k + 1..], row.value.0, conv))
  {
    assert rows[k..][0] == rows[k];
    assert rows[k..][1..] == rows[k + 1..];
  }

  /** The last address of row `i`, as its first field parses. */
  function RowTo(rows: seq<Row>, i: nat, conv: Conv): int
    requires i < |rows| && ParseRow(rows[i], conv).Ok?
  {
    ParseRow(rows[i], conv).value.0
  }

  /** The `prevIP` in force when row `i` is read. */
  function PrevOf(rows: seq<Row>, prev: int, i: nat, conv: Conv): int
    requires i < |rows| && (i > 0 ==> ParseRow(rows[i - 1], conv).Ok?)
  {
    if i == 0 then prev else RowTo(rows, i - 1, conv)
  }

  /** The range row `i` yields: from `prevIP + 1` to `r[0]`, holding `r[1]`, each truncated. */
  function RowRange(rows: seq<Row>, prev: int, i: nat, conv: Conv): IpRange
    requires i < |rows| && ParseRow(rows[i], conv).Ok? && (i > 0 ==> ParseRow(rows[i - 1], conv).Ok?)
  {
    RowEntry(PrevOf(rows, prev, i, conv), ParseRow(rows[i], conv).value)
  }

  /**
   * When every row parses, there is one range per row: row `i` gives
   * `rangeTo = uint32(r[0])` and `data = int32(r[1])`, and its `rangeFrom` is
   * `uint32(prev + 1)` for the first row and `uint32(previous r[0] + 1)` after it.
   */
  lemma {:induction false} BuildAllParse(rows: seq<Row>, prev: int, conv: Conv)
    requires forall i :: 0 <= i < |rows| ==> ParseRow(rows[i], conv).Ok?
    ensures Build(rows, prev, conv).Ok?
    ensures |Build(rows, prev, conv).value| == |rows|
    ensures forall i :: 0 <= i < |rows| ==> Build(rows, prev, conv).value[i] == RowRange(rows, prev, i, conv)
  {
    if rows != [] {
      var to := RowTo(rows, 0, conv);
      var tail := rows[1..];
      forall j | 0 <= j < |tail| ensures tail[j] == rows[j + 1] && ParseRow(tail[j], conv).Ok? {
      }
      BuildAllParse(tail, to, conv);
      var rest := Build(tail, to, conv).value;
      assert Build(rows, prev, conv) == Ok([RowRange(rows, prev, 0, conv)] + rest);
      forall i | 0 < i < |rows|
        ensures Build(rows, prev, conv).value[i] == RowRange(rows, prev, i, conv)
      {
        assert rest[i - 1] == RowRange(tail, to, i - 1, conv);
        assert PrevOf(tail, to, i - 1, conv) == PrevOf(rows, prev, i, conv);
      }
    }
  }

  /** The first row that fails to parse decides the error, whatever follows it. */
  lemma {:induction false} BuildFirstError(rows: seq<Row>, prev: int, k: nat, conv: Conv)
    requires k < |rows| && ParseRow(rows[k], conv).Err?
    requires forall i :: 0 <= i < k ==> ParseRow(rows[i], conv).Ok?
    ensures Build(rows, prev, conv) == Err(ParseRow(rows[k], conv).error)
  {
    if k > 0 {
      var to := RowTo(rows, 0, conv);
      forall i | 0 <= i < k - 1 ensures ParseRow(rows[1..][i], conv).Ok? {
        assert rows[1..][i] == rows[i + 1];
      }
      BuildFirstError(rows[1..], to, k - 1, conv);
    }
  }

  /** The load fails exactly when some row has a field that does not parse. */
  lemma {:induction false} FromRowsFails(rows: seq<Row>, conv: Conv)
    ensures FromRows(rows, conv).Err? <==> exists i :: 0 <= i < |rows| && ParseRow(rows[i], conv).Err?
  {
    if exists i :: 0 <= i < |rows| && ParseRow(rows[i], conv).Err? {
      var k := FirstBadRow(rows, conv);
      BuildFirstError(rows, -1, k, conv);
    } else {
      BuildAllParse(rows, -1, conv);
    }
  }

  /** The index of the first row that fails to parse. */
  function FirstBadRow(rows: seq<Row>, conv: Conv): (k: nat)
    requires exists i :: 0 <= i < |rows| && ParseRow(rows[i], conv).Err?
    ensures k < |rows| && ParseRow(rows[k], conv).Err?
    ensures forall i :: 0 <= i < k ==> ParseRow(rows[i], conv).Ok?
  {
    if ParseRow(rows[0], conv).Err? then 0
    else
      assert exists i :: 0 <= i < |rows[1..]| && ParseRow(rows[1..][i], conv).Err? by {
        var i :| 0 <= i < |rows| && ParseRow(rows[i], conv).Err?;
        assert rows[1..][i - 1] == rows[i];
      }
      1 + FirstBadRow(rows[1..], conv)
  }

  /**
   * Consecutive ranges of a successful load abut: each one starts one past the
   * previous one's end, modulo 2^32, and the first one starts at 0.
   */
  lemma {:induction false} FromRowsContiguous(rows: seq<Row>, conv: Conv)
    requires FromRows(rows, conv).Ok?
    ensures |FromRows(rows, conv).value| == |rows|
    ensures rows != [] ==> FromRows(rows, conv).value[0].rangeFrom == 0
    ensures forall i :: 0 < i < |rows| ==>
      FromRows(rows, conv).value[i].rangeFrom == (FromRows(rows, conv).value[i - 1].rangeTo + 1) % TWO_32
  {
    FromRowsFails(rows, conv);
    BuildAllParse(rows, -1, conv);
    var es := FromRows(rows, conv).value;
    forall i | 0 < i < |rows|
      ensures es[i].rangeFrom == (es[i - 1].rangeTo + 1) % TWO_32
    {
      assert es[i] == RowRange(rows, -1, i, conv);
      assert es[i - 1] == RowRange(rows, -1, i - 1, conv);
      Uint32OfSucc(RowTo(rows, i - 1, conv));
    }
  }
}
