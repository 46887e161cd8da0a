/**
 * ipRange.go: the same table of `int32` facility codes with the lookup whose
 * guard is `idx != -1`, the count-less file image that is mapped into memory
 * (magic, the raw records, magic), and its CSV loader.
 */
module IpRangeMmap {
  import opened Machine
  import opened Wrappers
  import opened Strconv
  import opened RangeTable
  import opened Layout
  import opened Streams
  import opened CsvRanges
  import Binary = IpRangeBinary

  // ---------------------------------------------------------------------------
  // Lookup

  /**
   * What `lookup` does on a table sorted by `rangeTo`. `sort.Search` never
   * returns -1, so the guard always lets `r[idx]` through; when no entry ends
   * at or above `ip` that index is `len(r)` and the program panics.
   */
  function LookupSpec(r: seq<IpRange>, ip: u32): Outcome<(i32, bool)> {
    var idx := FirstAtLeast(r, ip);
    if idx == |r| then IndexPanic
    else if r[idx].rangeFrom <= ip && ip <= r[idx].rangeTo then Returns((r[idx].data, true))
    else Returns((0, false))
  }

  /**
   * `ipRangeList.lookup`. Whatever the order of `r`, a hit is an entry that
   * contains `ip`, and a panic means the last entry ends below `ip`.
   */
  method Lookup(r: seq<IpRange>, ip: u32) returns (o: Outcome<(i32, bool)>)
    ensures o.IndexPanic? ==> r == [] || r[|r| - 1].rangeTo < ip
    ensures o.Returns? && o.value.1 ==> exists k :: 0 <= k < |r| && r[k].Contains(ip) && r[k].data == o.value.0
    ensures o.Returns? && !o.value.1 ==> o.value.0 == 0
    ensures SortedByTo(r) ==> o == LookupSpec(r, ip)
  {
    var idx := Search(r, ip);
    if idx == |r| {
      return IndexPanic;
    }
    if r[idx].rangeFrom <= ip && ip <= r[idx].rangeTo {
      return Returns((r[idx].data, true));
    }
    return Returns((0, false));
  }

  /** On a sorted table the lookup panics exactly when `ip` is above every `rangeTo`, the empty table included. */
  lemma LookupPanicsIff(r: seq<IpRange>, ip: u32)
    requires SortedByTo(r)
    ensures LookupSpec(r, ip).IndexPanic? <==> r == [] || r[|r| - 1].rangeTo < ip
  {
    var idx := FirstAtLeast(r, ip);
    if idx < |r| {
      assert r[idx].rangeTo <= r[|r| - 1].rangeTo;
    }
  }

  /** Below the last `rangeTo` of a sorted table, this lookup returns what iprange.go's does. */
  lemma LookupAgreesBelowLast(r: seq<IpRange>, ip: u32)
    requires SortedByTo(r)
    requires r != [] && ip <= r[|r| - 1].rangeTo
    ensures LookupSpec(r, ip) == Returns(Binary.LookupSpec(r, ip))
  {
    LookupPanicsIff(r, ip);
  }

  /** An address one above the test table's last entry makes the lookup panic, where iprange.go's misses. */
  lemma LookupPanicsAboveTestTable()
    ensures LookupSpec(Binary.TestRanges, 387534215).IndexPanic?
    ensures Binary.LookupSpec(Binary.TestRanges, 387534215) == (0, false)
  {
    Binary.TestRangesLookup();
    LookupPanicsIff(Binary.TestRanges, 387534215);
  }

  // ---------------------------------------------------------------------------
  // The mapped image: magic, the records as they lie in memory, magic.

  /** The errors of `reflectIpRangeRows`. */
  datatype MmapError =
    | TooSmall                         // "file is too small for the expected format"
    | BadHeader(actual: seq<byte>)     // "expected header ..., actual ..."
    | BadFooter(actual: seq<byte>)     // "expected footer ..., actual ..."

  /**
   * `reflectByteSlice`: the memory of the slice seen as bytes. Byte `k` is
   * byte `k % 12` of record `k / 12`, each record laid out as its three
   * fields in order, little-endian.
   */
  function ReflectByteSlice(rows: seq<IpRange>): (b: seq<byte>)
    ensures |b| == 12 * |rows|
  {
    seq(12 * |rows|, k requires 0 <= k < 12 * |rows| => EncodeRange(rows[k / 12])[k % 12])
  }

  /** Reinterpreting the memory gives the records one after another. */
  lemma ReflectIsRecords(rows: seq<IpRange>)
    ensures ReflectByteSlice(rows) == EncodeRanges(rows)
  {
    var a := ReflectByteSlice(rows);
    var b := EncodeRanges(rows);
    forall k | 0 <= k < |a|
      ensures a[k] == b[k]
    {
      var i := k / 12;
      var m := k % 12;
      assert k == 12 * i + m;
      EncodeRangesAt(rows, i, []);
      assert b + [] == b;
      assert (b + [])[12 * i..][m] == b[k];
    }
  }

  /** Record `i` occupies bytes `12 i` to `12 i + 12`. */
  lemma ReflectRecordAt(rows: seq<IpRange>, i: nat)
    requires i < |rows|
    ensures ReflectByteSlice(rows)[12 * i..12 * i + 12] == EncodeRange(rows[i])
  {
    ReflectIsRecords(rows);
    EncodeRangesAt(rows, i, []);
    var b := EncodeRanges(rows);
    assert b + [] == b;
    assert b[12 * i..12 * i + 12] == (b + [])[12 * i..][..12];
  }

  /** What `writeMmap` writes: magic, the memory of the slice, magic. */
  function MmapImage(ranges: seq<IpRange>): (b: seq<byte>)
    ensures |b| == 16 + 12 * |ranges|
  {
    Magic + ReflectByteSlice(ranges) + Magic
  }

  /** `writeMmap`: three writes, each taken to succeed. */
  method WriteMmap(file: Writer, ranges: seq<IpRange>)
    modifies file
    ensures file.written == old(file.written) + MmapImage(ranges)
  {
    file.Write(Magic);
    file.Write(ReflectByteSlice(ranges));
    file.Write(Magic);
  }

  /**
   * `reflectIpRangeRows`: check the length, then the header, then the footer,
   * and read the bytes between them as records; the count is rounded down.
   */
  function ReflectIpRangeRows(data: seq<byte>): Result<seq<IpRange>, MmapError> {
    if |data| - 2 * |Magic| < 0 then Err(TooSmall)
    else if data[..8] != Magic then Err(BadHeader(data[..8]))
    else if data[|data| - 8..] != Magic then Err(BadFooter(data[|data| - 8..]))
    else
      var body := data[8..|data| - 8];
      Ok(DecodeRanges(body, |body| / 12))
  }

  /** Fewer than 16 bytes is "too small", whatever they are; 16 or more never is. */
  lemma ReflectTooSmall(data: seq<byte>)
    ensures ReflectIpRangeRows(data) == Err(TooSmall) <==> |data| < 16
  {
  }

  /** The header is checked first: a bad header is reported even when the footer is bad too. */
  lemma ReflectBadHeader(data: seq<byte>)
    requires |data| >= 16 && data[..8] != Magic
    ensures ReflectIpRangeRows(data) == Err(BadHeader(data[..8]))
  {
  }

  /** After a good header, a bad last eight bytes is a footer error. */
  lemma ReflectBadFooter(data: seq<byte>)
    requires |data| >= 16 && data[..8] == Magic && data[|data| - 8..] != Magic
    ensures ReflectIpRangeRows(data) == Err(BadFooter(data[|data| - 8..]))
  {
  }

  /**
   * A success is exactly a good length, header and footer; it has
   * `(len - 16) / 12` records, record `i` read from offset `8 + 12 i`.
   */
  lemma ReflectOk(data: seq<byte>)
    ensures ReflectIpRangeRows(data).Ok? <==> |data| >= 16 && data[..8] == Magic && data[|data| - 8..] == Magic
    ensures ReflectIpRangeRows(data).Ok? ==>
      var rs := ReflectIpRangeRows(data).value;
      && |rs| == (|data| - 16) / 12
      && forall i :: 0 <= i < |rs| ==> rs[i] == DecodeRange(data[8 + 12 * i..])
  {
    if ReflectIpRangeRows(data).Ok? {
      var body := data[8..|data| - 8];
      var rs := ReflectIpRangeRows(data).value;
      forall i | 0 <= i < |rs|
        ensures rs[i] == DecodeRange(data[8 + 12 * i..])
      {
        assert body[12 * i..][..12] == data[8 + 12 * i..][..12];
        DecodeRangePrefix(body[12 * i..]);
        DecodeRangePrefix(data[8 + 12 * i..]);
      }
    }
  }

  /**
   * Up to eleven bytes between the last record and the footer are dropped
   * without an error: the image still reads back as the ranges written.
   */
  lemma ReflectDropsPartialRecord(ranges: seq<IpRange>, extra: seq<byte>)
    requires |extra| < 12
    ensures ReflectIpRangeRows(Magic + ReflectByteSlice(ranges) + extra + Magic) == Ok(ranges)
  {
    var records := ReflectByteSlice(ranges);
    var data := Magic + records + extra + Magic;
    ReflectIsRecords(ranges);
    assert data[..8] == Magic;
    assert data[|data| - 8..] == Magic;
    var body := data[8..|data| - 8];
    assert body == records + extra;
    assert |body| / 12 == |ranges|;
    DecodeEncodeRanges(ranges, extra);
  }

  /** Round trip: the image `writeMmap` writes reads back as the same ranges. */
  lemma ReflectMmapImage(ranges: seq<IpRange>)
    ensures ReflectIpRangeRows(MmapImage(ranges)) == Ok(ranges)
  {
    ReflectDropsPartialRecord(ranges, []);
    assert Magic + ReflectByteSlice(ranges) + [] + Magic == MmapImage(ranges);
  }

  /** The test's six entries survive the mapped image. */
  lemma TestRangesMmapRoundTrip()
    ensures ReflectIpRangeRows(MmapImage(Binary.TestRanges)) == Ok(Binary.TestRanges)
  {
    ReflectMmapImage(Binary.TestRanges);
  }

  // ---------------------------------------------------------------------------
  // CSV

  /** `converr` as this file calls it: with the converter as an argument. */
  class Converr {
    var err: Option<NumError>

    constructor ()
      ensures err == None
    {
      err := None;
    }

    /** `convert.check(s, conv)`: the converted value, or 0 with the error recorded. */
    method Check(s: string, conv: Conv) returns (i: int)
      modifies this
      ensures conv(s).Ok? ==> i == conv(s).value && err == old(err)
      ensures conv(s).Err? ==> i == 0 && err == Some(conv(s).error)
    {
      var r := conv(s);
      if r.Err? {
        err := Some(r.error);
        return 0;
      }
      return r.value;
    }
  }

  /**
   * `loadIpRangesFromCSV`, on rows already split into their two fields and
   * converted with `strconv.Atoi`.
   */
  method LoadIpRangesFromCSV(rows: seq<Row>) returns (res: Result<seq<IpRange>, NumError>)
    ensures res == FromRows(rows, Atoi)
  {
    var ips: seq<IpRange> := [];
    var prevIP: int := -1;
    assert rows[0..] == rows;
    assert Prepend(ips, Build(rows, prevIP, Atoi)) == FromRows(rows, Atoi) by {
      match Build(rows, prevIP, Atoi)
      case Err(_) =>
      case Ok(rest) => assert ips + rest == rest;
    }
    for k := 0 to |rows|
      invariant FromRows(rows, Atoi) == Prepend(ips, Build(rows[k..], prevIP, Atoi))
    {
      var r := rows[k];
      ghost var p := ParseRow(r, Atoi);
      BuildStep(rows, k, prevIP, Atoi);
      var convert := new Converr();
      var ipFrom := prevIP + 1;
      var ipTo := convert.Check(r.0, Atoi);
      var data := convert.Check(r.1, Atoi);
      prevIP := ipTo;
      if convert.err.Some? {
        assert p == Err(convert.err.value);
        return Err(convert.err.value);
      }
      assert p == Ok((ipTo, data));
      PrependPrepend(ips, [RowEntry(ipFrom - 1, p.value)], Build(rows[k + 1..], ipTo, Atoi));
      ips := ips + [Entry(Uint32Of(ipFrom), Uint32Of(ipTo), Int32Of(data))];
    }
    assert rows[|rows|..] == [];
    assert ips + [] == ips;
    return Ok(ips);
  }
}
