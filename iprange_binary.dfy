/**
 * iprange.go: the range table of `int32` facility codes, its lookup, the
 * counted binary format (`loadIPRangesFromBinary`, `writeBinary`) and the
 * implicit-range CSV loader.
 */
module IpRangeBinary {
  import opened Machine
  import opened Wrappers
  import opened Strconv
  import opened RangeTable
  import opened Layout
  import opened Streams
  import opened CsvRanges

  // ---------------------------------------------------------------------------
  // sort.Interface

  /** `ipRangeList.Less`: order by the last address of each range. */
  function Less(r: seq<IpRange>, i: nat, j: nat): bool
    requires i < |r| && j < |r|
  {
    r[i].rangeTo < r[j].rangeTo
  }

  /** A list is in the order `sort.Sort` leaves it in with this `Less` exactly when no later entry is `Less` than an earlier one. */
  lemma SortedIffNoInversion(r: seq<IpRange>)
    ensures SortedByTo(r) <==> forall i, j :: 0 <= i < j < |r| ==> !Less(r, j, i)
  {
    if forall i, j :: 0 <= i < j < |r| ==> !Less(r, j, i) {
      forall i, j | 0 <= i < j < |r| ensures r[i].rangeTo <= r[j].rangeTo {
        assert !Less(r, j, i);
      }
    }
  }

  /** `ipRangeList.Swap`: exchange two entries in place. */
  method Swap(r: array<IpRange>, i: nat, j: nat)
    requires i < r.Length && j < r.Length
    modifies r
    ensures r[..] == old(r[..])[i := old(r[j])][j := old(r[i])]
    ensures multiset(r[..]) == multiset(old(r[..]))
  {
    r[i], r[j] := r[j], r[i];
  }

  // ---------------------------------------------------------------------------
  // Lookup

  /** What `lookup` returns on a table sorted by `rangeTo`. */
  function LookupSpec(r: seq<IpRange>, ip: u32): (i32, bool) {
    var idx := FirstAtLeast(r, ip);
    if idx < |r| && r[idx].rangeFrom <= ip && ip <= r[idx].rangeTo then (r[idx].data, true) else (0, false)
  }

  /**
   * `ipRangeList.lookup`: search for the first entry that ends at or above
   * `ip`, and report its data if it also starts at or below `ip`. A hit is
   * always an entry that really contains `ip`, whatever the order of `r`.
   */
  method Lookup(r: seq<IpRange>, ip: u32) returns (d: i32, found: bool)
    ensures found ==> exists k :: 0 <= k < |r| && r[k].Contains(ip) && r[k].data == d
    ensures !found ==> d == 0
    ensures SortedByTo(r) ==> (d, found) == LookupSpec(r, ip)
  {
    var idx := Search(r, ip);
    if idx < |r| && r[idx].rangeFrom <= ip && ip <= r[idx].rangeTo {
      return r[idx].data, true;
    }
    return 0, false;
  }

  /** On a valid table, an address inside entry `k` finds `k`'s data. */
  lemma LookupFindsContainingEntry(r: seq<IpRange>, ip: u32, k: nat)
    requires Valid(r)
    requires k < |r| && r[k].Contains(ip)
    ensures LookupSpec(r, ip) == (r[k].data, true)
  {
    FirstAtLeastIsOnlyCandidate(r, ip, k);
  }

  /** An address in no entry is a miss, also for an empty table or one above every `rangeTo`. */
  lemma LookupMissesOutside(r: seq<IpRange>, ip: u32)
    requires forall k :: 0 <= k < |r| ==> !r[k].Contains(ip)
    ensures LookupSpec(r, ip) == (0, false)
  {
  }

  /** On a valid table, `lookup` hits exactly the addresses some entry contains. */
  lemma LookupHitIff(r: seq<IpRange>, ip: u32)
    requires Valid(r)
    ensures LookupSpec(r, ip).1 <==> exists k :: 0 <= k < |r| && r[k].Contains(ip)
  {
    if k :| 0 <= k < |r| && r[k].Contains(ip) {
      LookupFindsContainingEntry(r, ip, k);
    }
  }

  /**
   * Sorted and disjoint is not enough: an entry with `rangeFrom > rangeTo`
   * contains nothing, yet it can be the search's stopping point and hide the
   * entry that does contain the address.
   */
  lemma EmptyEntryHidesLaterEntry()
    ensures var r := [Entry(12, 11, 1), Entry(0, 20, 2)];
      SortedByTo(r) && Disjoint(r) && r[1].Contains(10) && LookupSpec(r, 10) == (0, false)
  {
  }

  // ---------------------------------------------------------------------------
  // Binary format: magic, LE32 count, count records of 12 bytes, magic.

  datatype MagicName = Header | Footer

  datatype BinError =
    | ReadError(name: MagicName)                       // "error reading header/footer"
    | FormatError(name: MagicName, actual: seq<byte>)  // "file format is incorrect"
    | SizeFieldError                                   // "can't read file size field"
    | ShortRecords(expected: nat, got: nat)            // "expected %d items, got %d"

  /** The error `readMagicBytes` reports for a stream whose remaining bytes are `s`, if any. */
  function MagicCheck(s: seq<byte>, name: MagicName): Option<BinError> {
    if |s| < 8 then Some(ReadError(name))
    else if s[..8] != Magic then Some(FormatError(name, s[..8]))
    else None
  }

  /** How many bytes `readMagicBytes` consumes: eight, or all that remain when fewer do. */
  function MagicRead(s: seq<byte>): nat {
    if |s| < 8 then |s| else 8
  }

  /** `readMagicBytes`: read eight bytes and compare them with the magic. */
  method ReadMagicBytes(file: Reader, name: MagicName) returns (err: Option<BinError>)
    requires file.Valid()
    modifies file
    ensures file.Valid()
    ensures err == MagicCheck(old(file.Remaining()), name)
    ensures file.pos == old(file.pos) + MagicRead(old(file.Remaining()))
  {
    var b, ok := file.ReadFull(|Magic|);
    if !ok {
      return Some(ReadError(name));
    }
    if b != Magic {
      return Some(FormatError(name, b));
    }
    return None;
  }

  /** The outcome of decoding a stream, and how many of its bytes that consumed. */
  datatype Decoded = Decoded(result: Result<seq<IpRange>, BinError>, consumed: nat)

  /** What `loadIPRangesFromBinary` makes of a stream whose bytes are `s`. */
  function Decode(s: seq<byte>): (d: Decoded)
    ensures d.consumed <= |s|
  {
    if MagicCheck(s, Header).Some? then Decoded(Err(MagicCheck(s, Header).value), MagicRead(s))
    else if |s| < 12 then Decoded(Err(SizeFieldError), |s|)
    else
      var n := Uint32(s[8..12]);
      var end: int := 12 + 12 * (n as int);
      if |s| < end then Decoded(Err(ShortRecords(n, (|s| - 12) / 12)), |s|)
      else
        match MagicCheck(s[end..], Footer)
        case Some(e) => Decoded(Err(e), end + MagicRead(s[end..]))
        case None => Decoded(Ok(DecodeRanges(s[12..], n)), end + 8)
  }

  /**
   * `loadIPRangesFromBinary`: check the header, read the count, fill a table
   * of that many entries record by record, then check the footer. The stream
   * is left just past what `Decode` consumed.
   */
  method LoadFromBinary(file: Reader) returns (res: Result<seq<IpRange>, BinError>)
    requires file.Valid()
    modifies file
    ensures file.Valid()
    ensures res == Decode(old(file.Remaining())).result
    ensures file.pos == old(file.pos) + Decode(old(file.Remaining())).consumed
  {
    ghost var s := file.Remaining();
    ghost var start := file.pos;
    var err := ReadMagicBytes(file, Header);
    if err.Some? {
      return Err(err.value);
    }
    var lenranges, ok := file.ReadFull(4);
    if !ok {
      return Err(SizeFieldError);
    }
    assert lenranges == s[8..12];
    var n := Uint32(lenranges);
    ghost var body := s[12..];
    assert file.Remaining() == body;
    var ranges := new IpRange[n];
    var b: seq<byte>;
    for i := 0 to n
      invariant file.Valid() && file.pos == start + 12 + 12 * i
      invariant |body| >= 12 * i && file.Remaining() == body[12 * i..]
      invariant ranges[..i] == DecodeRanges(body, i)
    {
      b, ok := file.ReadFull(RecordSize);
      if !ok {
        DecodeShortAt(s, i);
        return Err(ShortRecords(n, i));
      }
      RecordStep(body, i, b);
      ranges[i] := DecodeRange(b);
      assert ranges[..i + 1] == ranges[..i] + [ranges[i]];
    }
    ghost var end: int := 12 + 12 * (n as int);
    assert file.Remaining() == s[end..];
    DecodeAfterRecords(s);
    err := ReadMagicBytes(file, Footer);
    if err.Some? {
      return Err(err.value);
    }
    assert ranges[..] == ranges[..n];
    return Ok(ranges[..]);
  }

  /** Reading record `i` of `body` extends the ranges read so far and moves to the next record. */
  lemma RecordStep(body: seq<byte>, i: nat, b: seq<byte>)
    requires |body| >= 12 * (i + 1) && b == body[12 * i..][..RecordSize]
    ensures DecodeRanges(body, i + 1) == DecodeRanges(body, i) + [DecodeRange(b)]
    ensures body[12 * i..][RecordSize..] == body[12 * (i + 1)..]
  {
    DecodeRangePrefix(body[12 * i..]);
    DecodeRangesSnoc(body, i);
  }

  /** After a good header, count and all the records, only the footer decides. */
  lemma DecodeAfterRecords(s: seq<byte>)
    requires |s| >= 12 && MagicCheck(s, Header).None?
    requires 12 + 12 * Uint32(s[8..12]) <= |s|
    ensures var n := Uint32(s[8..12]);
      var end := 12 + 12 * n;
      var e := MagicCheck(s[end..], Footer);
      Decode(s) == if e.Some? then Decoded(Err(e.value), end + MagicRead(s[end..]))
                   else Decoded(Ok(DecodeRanges(s[12..], n)), end + 8)
  {
  }

  /** After a good header and count, a stream that ends inside record `i` decodes to that error. */
  lemma DecodeShortAt(s: seq<byte>, i: nat)
    requires |s| >= 12 && MagicCheck(s, Header).None?
    requires i < Uint32(s[8..12]) && 12 + 12 * i <= |s| < 24 + 12 * i
    ensures Decode(s) == Decoded(Err(ShortRecords(Uint32(s[8..12]), i)), |s|)
  {
    assert (|s| - 12) / 12 == i;
  }

  /** The bytes `writeBinary` produces: magic, `uint32(len(ranges))`, the records, magic. */
  function Encode(ranges: seq<IpRange>): (b: seq<byte>)
    ensures |b| == 20 + 12 * |ranges|
  {
    Magic + LE32(Uint32Of(|ranges|)) + EncodeRanges(ranges) + Magic
  }

  /** `binary.LittleEndian.PutUint32(b[off:], v)`. */
  method PutUint32(b: array<byte>, off: nat, v: u32)
    requires off + 4 <= b.Length
    modifies b
    ensures b[off..off + 4] == LE32(v)
    ensures forall k :: 0 <= k < b.Length && !(off <= k < off + 4) ==> b[k] == old(b[k])
  {
    b[off] := v % 0x100;
    b[off + 1] := (v / 0x100) % 0x100;
    b[off + 2] := (v / 0x1_0000) % 0x100;
    b[off + 3] := v / 0x100_0000;
  }

  /** Fill the 12-byte scratch buffer with the record of `r`. */
  method PutRecord(b: array<byte>, r: IpRange)
    requires b.Length == RecordSize
    modifies b
    ensures b[..] == EncodeRange(r)
  {
    PutUint32(b, 0, r.rangeFrom);
    PutUint32(b, 4, r.rangeTo);
    PutUint32(b, 8, U32OfI32(r.data));
    assert b[..] == b[0..4] + b[4..8] + b[8..12];
  }

  /**
   * `writeBinary`: the magic, the count from a 4-byte prefix of the scratch
   * buffer, each record through the same 12-byte buffer, and the magic again.
   */
  method WriteBinary(file: Writer, ranges: seq<IpRange>)
    modifies file
    ensures file.written == old(file.written) + Encode(ranges)
  {
    file.Write(Magic);
    var b := new byte[RecordSize];
    PutUint32(b, 0, Uint32Of(|ranges|));
    file.Write(b[..4]);
    assert b[..4] == b[0..4];
    ghost var header := file.written;
    for i := 0 to |ranges|
      invariant file.written == header + EncodeRanges(ranges[..i])
    {
      PutRecord(b, ranges[i]);
      file.Write(b[..]);
      EncodeRangesSnoc(ranges, i);
      AppendAssoc(header, EncodeRanges(ranges[..i]), EncodeRange(ranges[i]));
    }
    assert ranges[..|ranges|] == ranges;
    file.Write(Magic);
    AppendFrame(old(file.written), Magic, LE32(Uint32Of(|ranges|)), EncodeRanges(ranges), Magic);
  }

  /**
   * Round trip: decoding what `writeBinary` wrote gives the same ranges, in
   * order and with negative data intact, and consumes exactly 20 + 12 n bytes,
   * leaving whatever follows unread.
   */
  lemma DecodeEncode(ranges: seq<IpRange>, rest: seq<byte>)
    requires |ranges| < TWO_32
    ensures Decode(Encode(ranges) + rest) == Decoded(Ok(ranges), 20 + 12 * |ranges|)
  {
    var n := |ranges|;
    var s := Encode(ranges) + rest;
    var records := EncodeRanges(ranges);
    var end: int := 12 + 12 * (n as int);
    FrameSlices(Magic, LE32(n), records, Magic, rest);
    assert Uint32(s[8..12]) == n by {
      assert s[8..12] == LE32(n) + [];
      Uint32OfLE32(n, []);
    }
    assert DecodeRanges(s[12..], n) == ranges by {
      DecodeEncodeRanges(ranges, Magic + rest);
    }
    assert s[end..][..8] == Magic;
    DecodeAfterRecords(s);
  }

  /** The parts of a frame `a + b + c + d` followed by `rest`, recovered by slicing. */
  lemma FrameSlices<T>(a: seq<T>, b: seq<T>, c: seq<T>, d: seq<T>, rest: seq<T>)
    ensures var s := a + b + c + d + rest;
      var i, j := |a|, |a| + |b|;
      && s[..i] == a && s[i..j] == b
      && s[j..] == c + (d + rest)
      && s[j + |c|..] == d + rest
  {
  }

  /** A header shorter than eight bytes, or not the magic, is an error, and nothing past it is read. */
  lemma DecodeBadHeader(s: seq<byte>)
    requires |s| < 8 || s[..8] != Magic
    ensures Decode(s).result == Err(if |s| < 8 then ReadError(Header) else FormatError(Header, s[..8]))
    ensures Decode(s).consumed == if |s| < 8 then |s| else 8
  {
  }

  /** After a good header, fewer than four more bytes is a size-field error. */
  lemma DecodeShortCount(s: seq<byte>)
    requires 8 <= |s| < 12 && s[..8] == Magic
    ensures Decode(s).result == Err(SizeFieldError)
  {
  }

  /** Fewer complete records than the count announces: the error says how many were read. */
  lemma DecodeShortRecords(s: seq<byte>)
    requires |s| >= 12 && s[..8] == Magic
    requires |s| < 12 + 12 * Uint32(s[8..12])
    ensures Decode(s).result == Err(ShortRecords(Uint32(s[8..12]), (|s| - 12) / 12))
    ensures (|s| - 12) / 12 < Uint32(s[8..12])
  {
  }

  /** All records present but the footer short or wrong: an error. */
  lemma DecodeBadFooter(s: seq<byte>)
    requires |s| >= 12 && s[..8] == Magic
    requires var end := 12 + 12 * Uint32(s[8..12]); end <= |s| && (|s| < end + 8 || s[end..end + 8] != Magic)
    ensures Decode(s).result.Err? && Decode(s).result.error.name == Footer
  {
    var end := 12 + 12 * Uint32(s[8..12]);
    assert |s| >= end + 8 ==> s[end..][..8] == s[end..end + 8];
  }

  /** What a successful decode has checked: header, count, records and footer. */
  lemma DecodeOkParts(s: seq<byte>)
    requires Decode(s).result.Ok?
    ensures |s| >= 12 && s[..8] == Magic
    ensures var n := Uint32(s[8..12]);
      && |s| >= 20 + 12 * n
      && s[12 + 12 * n..20 + 12 * n] == Magic
      && Decode(s).result.value == DecodeRanges(s[12..], n)
      && Decode(s).consumed == 20 + 12 * n
  {
    var n := Uint32(s[8..12]);
    var end: int := 12 + 12 * (n as int);
    assert s[end..][..8] == s[end..end + 8];
  }

  /**
   * A successful decode consumed exactly an encoding: header, count, the
   * decoded records and footer, in that order, and nothing after them.
   */
  lemma DecodeOkIsEncoding(s: seq<byte>)
    requires Decode(s).result.Ok?
    ensures Decode(s).consumed == 20 + 12 * |Decode(s).result.value|
    ensures s[..Decode(s).consumed] == Encode(Decode(s).result.value)
  {
    DecodeOkParts(s);
    var n := Uint32(s[8..12]);
    var rs := Decode(s).result.value;
    var end: int := 12 + 12 * (n as int);
    assert LE32(Uint32Of(|rs|)) == s[8..12] by {
      LE32OfUint32(s[8..12]);
      assert s[8..12][..4] == s[8..12];
    }
    assert EncodeRanges(rs) == s[12..end] by {
      EncodeDecodeRanges(s[12..], n);
      assert s[12..][..12 * n] == s[12..end];
    }
    SplitFrame(s, end);
  }

  lemma SplitFrame(s: seq<byte>, end: nat)
    requires 12 <= end && end + 8 <= |s|
    ensures s[..end + 8] == s[..8] + s[8..12] + s[12..end] + s[end..end + 8]
  {
  }

  /** The six entries written and read back by the binary round-trip test. */
  const TestRanges: seq<IpRange> := [
    Entry(387534209, 387534209, 20107093),
    Entry(387534210, 387534210, 20107094),
    Entry(387534211, 387534211, 20107095),
    Entry(387534212, 387534212, 20107096),
    Entry(387534213, 387534213, 20107097),
    Entry(387534214, 387534214, 20107098)
  ]

  /** The test's table survives encoding and decoding. */
  lemma TestRangesRoundTrip()
    ensures Decode(Encode(TestRanges)).result == Ok(TestRanges)
  {
    DecodeEncode(TestRanges, []);
    assert Encode(TestRanges) + [] == Encode(TestRanges);
  }

  /** In the test's table, 387534211 finds 20107095. */
  lemma TestRangesLookup()
    ensures Valid(TestRanges)
    ensures LookupSpec(TestRanges, 387534211) == (20107095, true)
  {
    ChainedIsValid(TestRanges);
    LookupFindsContainingEntry(TestRanges, 387534211, 2);
  }

  // ---------------------------------------------------------------------------
  // CSV

  /** `converr`: a field converter that remembers the last conversion error. */
  class Converr {
    var err: Option<NumError>

    constructor ()
      ensures err == None
    {
      err := None;
    }

    /** `converr.check`: the converted value, or 0 with the error recorded. */
    method Check(s: string) returns (i: int)
      modifies this
      ensures Atoi(s).Ok? ==> i == Atoi(s).value && err == old(err)
      ensures Atoi(s).Err? ==> i == 0 && err == Some(Atoi(s).error)
    {
      var r := Atoi(s);
      if r.Err? {
        err := Some(r.error);
        return 0;
      }
      return r.value;
    }
  }

  /**
   * `loadIPRangesFromCSV`, on rows already split into their two fields: each
   * row ends a range that starts one past the previous row's end.
   */
  method LoadFromCSV(rows: seq<Row>) returns (res: Result<seq<IpRange>, NumError>)
    ensures res == FromRows(rows, Atoi)
  {
    var ips: seq<IpRange> := [];
    var prevIP: int := -1;
    assert rows[0..] == rows;
    assert Prepend(ips, Build(rows, prevIP, Atoi)) == FromRows(rows, Atoi) by {
      match Build(rows, prevIP, Atoi)
      case Err(_) =>
      case Ok(rest) => assert ips + rest == rest;
    }
    for k := 0 to |rows|
      invariant FromRows(rows, Atoi) == Prepend(ips, Build(rows[k..], prevIP, Atoi))
    {
      var r := rows[k];
      ghost var p := ParseRow(r, Atoi);
      BuildStep(rows, k, prevIP, Atoi);
      var convert := new Converr();
      var ipFrom := prevIP + 1;
      var ipTo := convert.Check(r.0);
      var data := convert.Check(r.1);
      if convert.err.Some? {
        assert p == Err(convert.err.value);
        return Err(convert.err.value);
      }
      assert p == Ok((ipTo, data));
      PrependPrepend(ips, [RowEntry(prevIP, p.value)], Build(rows[k + 1..], ipTo, Atoi));
      prevIP := ipTo;
      ips := ips + [Entry(Uint32Of(ipFrom), Uint32Of(ipTo), Int32Of(data))];
    }
    assert rows[|rows|..] == [];
    assert ips + [] == ips;
    return Ok(ips);
  }
}
