# rgip range tables in Dafny

rgip annotates IPv4 addresses with data looked up in range tables. A table is
a list of entries `{rangeFrom, rangeTo, data}`, each standing for the
inclusive address interval `[rangeFrom, rangeTo]`, kept in order of
`rangeTo`. A lookup binary-searches for the first entry that ends at or above
the address and reports a hit if that entry also starts at or below it. The
repository holds four variants of this table, one per Go file, and they
cannot be compiled together. Each one is a Dafny module of its own:

- `iprange.go` → `IpRangeBinary` (`iprange_binary.dfy`). Tables of `int32`
  codes. The lookup is guarded by `idx < len(r)`. It also has the counted
  binary file format (magic, little-endian count, 12-byte records, magic),
  read with `io.ReadFull` and written through a 12-byte scratch buffer, and
  the CSV loader.
- `ipRange.go` → `IpRangeMmap` (`iprange_mmap.dfy`). The same table, but
  its lookup has the `idx != -1` guard. It also has the count-less
  memory-mapped format (magic, raw records, magic) and its CSV loader.
- `badiprange.go` → `BadIPRangeBool` (`badiprange_bool.dfy`). Tables of
  `{status, expires}` records, a lookup that answers with a bool, and the
  "evil IP" lookup that hides expired entries.
- `badIpRange.go` → `BadIpRangeErr` (`badiprange_error.dfy`). The same,
  with a miss reported as the error `"ip %d not found"`.

Shared modules:

- `Machine` holds Go's integer widths and conversions, and time as
  nanoseconds since Go's zero `time.Time`.
- `RangeTable` holds the entry type and the table predicates. It models
  `sort.Search` as its halving loop (`Search`), next to its reference
  definition `FirstAtLeast`.
- `Layout` holds the magic and the 12-byte little-endian record.
- `Strconv` holds Go's `strconv.Atoi` and `%d`.
- `Streams` holds a byte reader with a cursor and an append-only writer.
- `CsvRanges` holds the implicit-range CSV construction shared by both
  loaders.

Modelling decisions:

- **The `idx != -1` guard.** `sort.Search` returns a value in `[0, len(r)]`,
  never -1. So in ipRange.go, badiprange.go and badIpRange.go the guard
  never stops `r[idx]`. For an address above the last `rangeTo`, that index
  is `len(r)` and Go panics. These lookups return an
  `Outcome = IndexPanic | Returns(v)` that makes the panic explicit.
- **Nil tables.** A nil table of the evil lists is `None`. A non-nil empty
  slice is `Some([])`, which panics.
- **How each lookup is proved.** Each lookup is a method built on
  `Search`. Its contract has two parts:
  - a soundness part that holds for any order of the table: a hit is an
    entry containing the address;
  - an equation with a specification function, which holds once the table
    is sorted by `rangeTo`.
- **What correctness needs.** The correctness lemmas need the table sorted,
  disjoint and made of non-empty entries. `EmptyEntryHidesLaterEntry`
  shows that sorted and disjoint alone are not enough.
- **Time.** `time.Now()` is a parameter `now`. `After` is strict.
- **CSV rows.** Records arrive as given `(r[0], r[1])` pairs. Fields are
  parsed by an exact model of 64-bit `strconv.Atoi`. Go's `int` is 64 bits
  and `prevIP + 1` can wrap, but only its low 32 bits are kept, so the wrap
  never shows.
- **The mapped image.** `reflectByteSlice` reinterprets memory. It is
  modelled with byte `k` being byte `k % 12` of record `k / 12`, each
  record as its three fields in declaration order, little-endian. That is
  the layout on a little-endian host with no padding.
- **Where the source disagrees with itself.**
  - ipRange.go:142-143 calls `convert.check(r[i], strconv.Atoi)` with two
    arguments. The only `converr` in these files, at iprange.go:176-187,
    takes one. `IpRangeMmap.Converr.Check` takes the converter as an
    argument, as the call does.
  - ipRange_test.go passes a file name to `writeMmap` and `mmapIpRanges`,
    which take an `*os.File`.
  - badiprange_test.go builds `BadIPRecord` values, a type that only
    badIpRange.go declares.

  The model follows the functions' own code.

## Model

| member | source | states |
|---|---|---|
| RangeTable.Search | iprange.go:40 | `sort.Search` as a loop. The index lies between an entry ending below `ip` and one ending at or above it. On a table sorted by `rangeTo` it is the first index with `ip <= rangeTo`, or `len(r)`. |
| RangeTable.FirstAtLeast | iprange.go:40 | Reference definition of the search. Every earlier entry ends below `ip`, and the one found does not. |
| RangeTable.FirstAtLeastIsOnlyCandidate | iprange.go:39-47 | On a sorted, disjoint, well-formed table, an entry containing `ip` is the one the search stops at. |
| RangeTable.ChainedIsValid | iprange.go:35 | Entries that are non-empty and each end below the next one's start form a sorted, disjoint table. |
| RangeTable.FirstAtLeastMapData | badIpRange.go:27 | The search reads only `rangeTo`, so changing payloads does not move it. |
| IpRangeBinary.SortedIffNoInversion | iprange.go:35 | A table is in the order `Less` sorts to exactly when no later entry is `Less` than an earlier one. |
| IpRangeBinary.Swap | iprange.go:36 | Exchanges two entries in place and leaves a permutation. |
| IpRangeBinary.Lookup | iprange.go:39-47 | A hit is the data of an entry containing `ip`. A miss is `(0, false)`. On a sorted table the result equals `LookupSpec`. |
| IpRangeBinary.LookupFindsContainingEntry | iprange.go:39-47 | On a valid table, an address inside entry `k` returns `(k.data, true)`. Both ends are inclusive. |
| IpRangeBinary.LookupMissesOutside | iprange.go:42-46 | An address in no entry gives `(0, false)`. This includes the empty table and addresses above every `rangeTo`. |
| IpRangeBinary.LookupHitIff | iprange.go:35-47 | On a valid table, lookup hits exactly when some entry contains `ip`. |
| IpRangeBinary.EmptyEntryHidesLaterEntry | iprange.go:42 | A sorted, disjoint table with an empty entry `rangeFrom > rangeTo` misses an address that a later entry contains. |
| IpRangeBinary.ReadMagicBytes | iprange.go:56-68 | Reads eight bytes. A short read is a read error that consumes what is left. Other bytes than the magic are a format error naming the bytes read. |
| IpRangeBinary.LoadFromBinary | iprange.go:70-103 | Checks the header, reads the count, fills a preallocated table record by record, then checks the footer. The result and the bytes consumed are those of `Decode`. |
| IpRangeBinary.DecodeBadHeader | iprange.go:56-74 | A header that is short or not `"rgipMap\0"` is an error, and nothing past it is read. |
| IpRangeBinary.DecodeShortCount | iprange.go:76-80 | Fewer than four bytes after the header is the size-field error. |
| IpRangeBinary.DecodeShortRecords | iprange.go:82-88 | Fewer complete records than the count is an error. It reports the count and how many records were read, which is below the count. |
| IpRangeBinary.DecodeShortAt | iprange.go:84-88 | A stream ending inside record `i` reports `i` records read and consumes everything. |
| IpRangeBinary.DecodeAfterRecords | iprange.go:97-102 | Once the records are all read, only the footer decides between a footer error and success. |
| IpRangeBinary.DecodeBadFooter | iprange.go:97-100 | A short or wrong footer after all the records is a footer error. |
| IpRangeBinary.DecodeOkParts | iprange.go:70-103 | Success means header, count, records and footer came in that order, and exactly `20 + 12n` bytes were consumed. |
| IpRangeBinary.DecodeOkIsEncoding | iprange.go:70-137 | The bytes a successful decode consumed are exactly the encoding of the result. Nothing after the footer is consumed. |
| IpRangeBinary.Encode | iprange.go:105-131 | The `writeBinary` output: magic, `LE32(uint32(n))`, n records, magic, for `20 + 12n` bytes. |
| IpRangeBinary.PutUint32 | iprange.go:115-123 | `binary.LittleEndian.PutUint32` stores the four little-endian bytes at the offset and leaves the rest of the buffer alone. |
| IpRangeBinary.PutRecord | iprange.go:121-123 | The scratch buffer holds the record of `r`: `from`, `to`, `uint32(data)`. |
| IpRangeBinary.WriteBinary | iprange.go:105-137 | Appends exactly `Encode(ranges)` to the output. |
| IpRangeBinary.DecodeEncode | iprange.go:70-137 | Round trip, for fewer than 2^32 ranges. Decoding the encoding, with any bytes after it, gives the same ranges, negative data included, and consumes `20 + 12n` bytes. |
| IpRangeBinary.TestRangesRoundTrip | iprange_test.go:10-46 | The test's six ranges survive encode and decode. |
| IpRangeBinary.TestRangesLookup | iprange_test.go:11-18 | The test's table is valid, and 387534211 finds 20107095. |
| IpRangeBinary.Converr.Check | iprange.go:176-187 | Returns the `Atoi` value and leaves `err` alone, or returns 0 and records the error. |
| IpRangeBinary.LoadFromCSV | iprange.go:139-174 | The loader's result is `FromRows(rows, Atoi)`. |
| CsvRanges.BuildAllParse | iprange.go:157-170 | When every row parses, there is one range per row. Row `i` is `(uint32(prev+1), uint32(to), int32(data))`. |
| CsvRanges.BuildFirstError | iprange.go:159-168 | The first row that fails to parse aborts the load with that row's error. |
| CsvRanges.FromRowsFails | iprange.go:159-168 | The load fails exactly when some row has a field that does not parse. |
| CsvRanges.FromRowsContiguous | iprange.go:144-170 | On success, one range per row. The first starts at 0, and each later one starts at `(previous rangeTo + 1) mod 2^32`. |
| CsvRanges.FirstBadRow | iprange.go:146-168 | The first row that fails to parse, before which every row parses. |
| Strconv.AtoiShape | iprange.go:181 | An `Atoi` error names `Atoi` and the input. A success had only an optional sign and digits. |
| Strconv.AtoiDigits | iprange.go:181 | A run of digits below 2^63 parses to its value, with or without a leading `-`. |
| Strconv.AtoiRejectsNonDigit | iprange.go:181 | A character that is neither a digit nor a leading sign makes `Atoi` fail. |
| Strconv.AtoiFormatUint | badIpRange.go:33 | `Atoi` reads back what `%d` prints, for every value below 2^63. |
| Strconv.FormatUint | badIpRange.go:33 | `%d` prints decimal digits with no leading zero. |
| Machine.CastRoundTrip | iprange.go:93 | `int32(uint32(d)) == d` and `uint32(int32(u)) == u`. |
| Machine.Uint32OfSucc | iprange.go:160-170 | `uint32(x + 1) == (uint32(x) + 1) mod 2^32`. |
| Machine.Int32Of | iprange.go:170 | `int32(x)` agrees with `x` modulo 2^32 and is `x` itself when `x` fits. |
| Layout.Uint32OfLE32 | iprange.go:90-94 | `Uint32` reads back what `PutUint32` wrote. |
| Layout.LE32OfUint32 | iprange.go:121-123 | `PutUint32` writes back the four bytes `Uint32` read. |
| Layout.DecodeEncodeRange | iprange.go:90-94 | A record decodes to the range it encodes. |
| Layout.EncodeDecodeRange | iprange.go:121-123 | A range re-encodes to the 12 bytes it was read from. |
| Layout.EncodeRangesAt | iprange.go:120-127 | Record `i` sits at byte offset `12i` of the encoded records. |
| Layout.DecodeEncodeRanges | iprange.go:84-95 | Decoding `n` records from their encoding gives them back. |
| Layout.EncodeDecodeRanges | iprange.go:84-95 | Re-encoding `n` decoded records gives the first `12n` bytes back. |
| Streams.Reader.ReadFull | iprange.go:77-85 | `io.ReadFull`: it returns the next `n` bytes, or fails exactly when fewer remain, having consumed all of them. |
| IpRangeMmap.Lookup | ipRange.go:39-47 | A hit is an entry containing `ip`. A panic means the last entry ends below `ip`. On a sorted table the result is `LookupSpec`, which panics past the end. |
| IpRangeMmap.LookupPanicsIff | ipRange.go:40-42 | On a sorted table the lookup panics exactly when the table is empty or `ip` is above every `rangeTo`. |
| IpRangeMmap.LookupAgreesBelowLast | ipRange.go:39-47 | Up to the last `rangeTo` of a sorted table, the result equals iprange.go's lookup. |
| IpRangeMmap.LookupPanicsAboveTestTable | ipRange.go:42 | On the test table, 387534215 makes this lookup panic, while iprange.go's returns `(0, false)`. |
| IpRangeMmap.ReflectIsRecords | ipRange.go:56-64 | The reinterpreted memory is the records laid one after another. |
| IpRangeMmap.ReflectRecordAt | ipRange.go:56-64 | Record `i` is bytes `12i` to `12i+12`: `rangeFrom`, `rangeTo`, `data`, in field order. |
| IpRangeMmap.MmapImage | ipRange.go:89-102 | The `writeMmap` output is magic, the records and magic: `16 + 12n` bytes with no count field. |
| IpRangeMmap.WriteMmap | ipRange.go:89-102 | Appends exactly `MmapImage(ranges)`. |
| IpRangeMmap.ReflectTooSmall | ipRange.go:67-70 | "Too small" is returned exactly for inputs shorter than 16 bytes. |
| IpRangeMmap.ReflectBadHeader | ipRange.go:72-75 | A bad first eight bytes is a header error, reported before the footer is looked at. |
| IpRangeMmap.ReflectBadFooter | ipRange.go:77-80 | After a good header, a bad last eight bytes is a footer error. |
| IpRangeMmap.ReflectOk | ipRange.go:66-87 | Success happens exactly when the length, header and footer are good. It has `(len-16)/12` records, and record `i` is read from offset `8 + 12i`. |
| IpRangeMmap.ReflectDropsPartialRecord | ipRange.go:82-86 | Up to 11 stray bytes before the footer are dropped without an error. |
| IpRangeMmap.ReflectMmapImage | ipRange.go:56-102 | Round trip, with no bound on the count: the written image reads back as the same ranges. |
| IpRangeMmap.TestRangesMmapRoundTrip | ipRange_test.go:10-46 | The test's six ranges survive the mapped image. |
| IpRangeMmap.Converr.Check | ipRange.go:140-143 | Returns the converted value and leaves `err` alone, or returns 0 and records the error. |
| IpRangeMmap.LoadIpRangesFromCSV | ipRange.go:113-155 | The loader's result is `FromRows(rows, Atoi)`: contiguous ranges from 0, aborted by any parse error. |
| BadIPRangeBool.Lookup | badiprange.go:26-34 | A hit is the record of an entry containing `ip`. A miss is the zero record and `false`. A panic means the last entry ends below `ip`. Sorted gives `LookupSpec`. |
| BadIPRangeBool.LookupPanicsIff | badiprange.go:27-29 | On a sorted table it panics exactly when the table is empty or `ip` is above every `rangeTo`. |
| BadIPRangeBool.LookupHit | badiprange.go:26-31 | On a valid table, an address inside entry `k` returns `k`'s record and `true`. |
| BadIPRangeBool.LookupMiss | badiprange.go:29-33 | On a valid table, below the last `rangeTo`, an address in no entry returns the zero record and `false`. |
| BadIPRangeBool.EvilLookup | badiprange.go:54-69 | With a nil table the answer is `""`. A non-empty answer is the status of an unexpired entry containing `ip`. Sorted gives `EvilSpec`. |
| BadIPRangeBool.EvilNil | badiprange.go:55-57 | A nil table answers `""`. |
| BadIPRangeBool.EvilMiss | badiprange.go:59-62 | A range miss answers `""`. |
| BadIPRangeBool.EvilHit | badiprange.go:59-68 | A hit answers `""` when `now` is after `expires`, and the status otherwise. |
| BadIPRangeBool.EvilAtExpiry | badiprange.go:64-66 | At `now == expires` the status is still returned, because `After` is strict. |
| BadIPRangeBool.EvilPanicsIff | badiprange.go:54-69 | The evil lookup panics exactly when the table is empty or `ip` is above every `rangeTo`. |
| BadIPRangeBool.TestTable | badiprange_test.go:9-15 | The test's three entries form a valid table. |
| BadIPRangeBool.TestLookupBadIp | badiprange_test.go:8-54 | For `t0 < now <= 2038-01-19T03:14:08Z`: 387534201, and the expired 387534209, give `""`. 387534214 gives `"badder"` and 387534212 gives `"bad"`. |
| BadIpRangeErr.Lookup | badIpRange.go:26-34 | A nil error comes with the record of an entry containing `ip`. An error is the zero record with `NotFound(ip)`. Same panic as the others. Sorted gives `LookupSpec`. |
| BadIpRangeErr.LookupHit | badIpRange.go:26-31 | On a valid table, an address inside entry `k` returns its record and a nil error. |
| BadIpRangeErr.LookupMiss | badIpRange.go:29-33 | On a sorted table, below the last `rangeTo`, an address in no entry gives the zero record and "not found". |
| BadIpRangeErr.MessageNamesAddress | badIpRange.go:33 | The error text is `"ip " + digits + " not found"`, and `Atoi` of the digits is the address. |
| BadIpRangeErr.EvilLookup | badIpRange.go:52-67 | With a nil table the answer is `""`. A non-empty answer is the status of an unexpired entry containing `ip`. Sorted gives `EvilSpec`. |
| BadIpRangeErr.EvilHit | badIpRange.go:57-66 | A hit answers `""` when `now` is after `expires`, and the status otherwise. |
| BadIpRangeErr.LookupAgrees | badIpRange.go:26-34 | On every table, the panic, hit and record are the same as in badiprange.go's lookup. |
| BadIpRangeErr.EvilAgrees | badIpRange.go:52-67 | For the same entries and `now`, it returns the same string as `evilIPList.lookup`, or both panic. |
| BadIpRangeErr.ToBoolTable | badIpRange.go:16-24 | The same table in badiprange.go's types: nil stays nil. |
| BadIpRangeErr.TestTable | badIpRange_test.go:9-15 | The test's three entries form a valid table. |
| BadIpRangeErr.TestLookupBadIp | badIpRange_test.go:8-45 | For `t0 < now <= 2038-01-19T03:14:08Z`: 387534209 gives `""`, 387534214 gives `"badder"` and 387534212 gives `"bad"`. |

## Left out

- Locking. The `sync.RWMutex` wrappers `ipRanges.lookup`, `badIPRanges.lookup` and `badIpRanges.lookup` are left out, and so is `EvilIPList.lastChange`. The lookups are modelled on the lists.
- `Len`, and the `Less`/`Swap` of the two bad-IP lists. They are identical to iprange.go's, which are modelled. Sorting itself is library code.
- Files, `bufio`, `Flush` and the system calls (`os.Open`, `mmap.Map`, `loadIPRanges`, `loadIpRanges`, `mmapIpRanges`). Input and output are byte sequences. `mmapIpRanges` is `ReflectIpRangeRows` of the file's bytes.
- Write errors. `WriteBinary` and `WriteMmap` take every write to succeed.
- `IpRangeMmap.ReflectIpRangeRows`: the slice it returns aliases the mapped memory. The model returns a copied value, so aliasing is not captured.
- `IpRangeMmap.ReflectByteSlice`: it assumes a little-endian host with no padding in `ipRange`. The host's byte order is not modelled.
- `IpRangeBinary.LoadFromBinary`: the table of `count` entries is allocated before any record is read, as in Go. The memory this takes for a large bogus count is not modelled. Also, `readMagicBytes` and the other error texts are kept as error values rather than formatted strings.
- `IpRangeBinary.DecodeEncode`: needs fewer than 2^32 ranges. The count field is `uint32(len(ranges))`, so a longer list wraps and does not read back.
- `RangeTable.Search`: on an unsorted table it only promises the bracketing property. `sort.Search` promises nothing more there.
- CSV tokenising (`encoding/csv`). Records are given as two-field pairs. A record with fewer than two fields, where `r[1]` would panic, and CSV read errors are not modelled.
- Logging through mlog and `log`.
- main.go, geoip and sharding (`shard`, `shards.lookup`). These are not part of this model.

## Findings

| source | as written | input that shows it | evidently intended | confidence | as-written member | corrected member |
|---|---|---|---|---|---|---|
| ipRange.go:42 (same guard at badiprange.go:29 and badIpRange.go:29) | `idx != -1` guards `r[idx]`, but `sort.Search` never returns -1, so an address above the last `rangeTo` indexes `r[len(r)]` and panics | the six-entry test table and address 387534215 | `idx < len(r)`, as iprange.go:42 has it: a miss `(0, false)` | high; not executed | IpRangeMmap.LookupPanicsAboveTestTable | IpRangeBinary.LookupMissesOutside |
