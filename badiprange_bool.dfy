/**
 * badiprange.go: a range table whose payload is a status with an expiry
 * time, a lookup that reports a hit with a bool, and the "evil IP" lookup
 * that hides missing, unmatched and expired entries behind an empty status.
 * The clock is a parameter `now`.
 */
module BadIPRangeBool {
  import opened Machine
  import opened Wrappers
  import opened RangeTable

  /** `badIPRecord`: a status and the instant after which it no longer applies. */
  datatype BadIPRecord = BadIPRecord(status: string, expires: Time)

  /** `badIPRecord{}`: the empty status and the zero time. */
  const ZeroRecord: BadIPRecord := BadIPRecord("", ZeroTime)

  type BadIPRange = Entry<BadIPRecord>

  /** What `badIPRangeList.lookup` does on a table sorted by `rangeTo`; past the last entry `r[idx]` panics. */
  function LookupSpec(r: seq<BadIPRange>, ip: u32): Outcome<(BadIPRecord, bool)> {
    var idx := FirstAtLeast(r, ip);
    if idx == |r| then IndexPanic
    else if r[idx].rangeFrom <= ip && ip <= r[idx].rangeTo then Returns((r[idx].data, true))
    else Returns((ZeroRecord, false))
  }

  /**
   * `badIPRangeList.lookup`. Whatever the order of `r`, a hit is a record of
   * an entry containing `ip`, a miss carries the zero record, and a panic
   * means the last entry ends below `ip`.
   */
  method Lookup(r: seq<BadIPRange>, ip: u32) returns (o: Outcome<(BadIPRecord, bool)>)
    ensures o.IndexPanic? ==> r == [] || r[|r| - 1].rangeTo < ip
    ensures o.Returns? && o.value.1 ==> exists k :: 0 <= k < |r| && r[k].Contains(ip) && r[k].data == o.value.0
    ensures o.Returns? && !o.value.1 ==> o.value.0 == ZeroRecord
    ensures SortedByTo(r) ==> o == LookupSpec(r, ip)
  {
    var idx := Search(r, ip);
    if idx == |r| {
      return IndexPanic;
    }
    if r[idx].rangeFrom <= ip && ip <= r[idx].rangeTo {
      return Returns((r[idx].data, true));
    }
    return Returns((ZeroRecord, false));
  }

  /** On a sorted table the lookup panics exactly when `ip` is above every `rangeTo`, the empty table included. */
  lemma LookupPanicsIff(r: seq<BadIPRange>, ip: u32)
    requires SortedByTo(r)
    ensures LookupSpec(r, ip).IndexPanic? <==> r == [] || r[|r| - 1].rangeTo < ip
  {
    var idx := FirstAtLeast(r, ip);
    if idx < |r| {
      assert r[idx].rangeTo <= r[|r| - 1].rangeTo;
    }
  }

  /** On a valid table, an address inside entry `k` returns `k`'s record. */
  lemma LookupHit(r: seq<BadIPRange>, ip: u32, k: nat)
    requires Valid(r)
    requires k < |r| && r[k].Contains(ip)
    ensures LookupSpec(r, ip) == Returns((r[k].data, true))
  {
    FirstAtLeastIsOnlyCandidate(r, ip, k);
  }

  /** On a valid table and below its last `rangeTo`, an address in no entry returns the zero record and `false`. */
  lemma LookupMiss(r: seq<BadIPRange>, ip: u32)
    requires Valid(r)
    requires r != [] && ip <= r[|r| - 1].rangeTo
    requires forall k :: 0 <= k < |r| ==> !r[k].Contains(ip)
    ensures LookupSpec(r, ip) == Returns((ZeroRecord, false))
  {
    LookupPanicsIff(r, ip);
  }

  /**
   * What `evilIPList.lookup` returns at instant `now`, for a table that is
   * nil (`None`) or a slice: the status of an unexpired hit, else `""`.
   */
  function EvilSpec(table: Option<seq<BadIPRange>>, ip: u32, now: Time): Outcome<string> {
    if table.None? then Returns("")
    else
      var o := LookupSpec(table.value, ip);
      if o.IndexPanic? then IndexPanic
      else if !o.value.1 then Returns("")
      else if After(now, o.value.0.expires) then Returns("")
      else Returns(o.value.0.status)
  }

  /**
   * `evilIPList.lookup`, with `time.Now()` passed in as `now`. Whatever the
   * order of the table, a non-empty answer is the status of an entry that
   * contains `ip` and has not expired at `now`.
   */
  method EvilLookup(table: Option<seq<BadIPRange>>, ip: u32, now: Time) returns (o: Outcome<string>)
    ensures table.None? ==> o == Returns("")
    ensures o.Returns? && o.value != "" ==>
      && table.Some?
      && exists k ::
           && 0 <= k < |table.value| && table.value[k].Contains(ip)
           && table.value[k].data.status == o.value && !After(now, table.value[k].data.expires)
    ensures table.Some? && SortedByTo(table.value) ==> o == EvilSpec(table, ip, now)
  {
    if table.None? {
      return Returns("");
    }
    var found := Lookup(table.value, ip);
    if found.IndexPanic? {
      return IndexPanic;
    }
    var (data, ok) := found.value;
    if !ok {
      return Returns("");
    }
    if After(now, data.expires) {
      return Returns("");
    }
    return Returns(data.status);
  }

  /** A nil table answers `""` for every address and instant. */
  lemma EvilNil(ip: u32, now: Time)
    ensures EvilSpec(None, ip, now) == Returns("")
  {
  }

  /**
   * On a valid table, a hit in entry `k` answers its status until the instant
   * it expires, that instant included, and `""` at every later instant.
   */
  lemma EvilHit(r: seq<BadIPRange>, ip: u32, now: Time, k: nat)
    requires Valid(r)
    requires k < |r| && r[k].Contains(ip)
    ensures EvilSpec(Some(r), ip, now) == Returns(if now > r[k].data.expires then "" else r[k].data.status)
  {
    LookupHit(r, ip, k);
  }

  /** `After` is strict: at the very instant of expiry the status still applies. */
  lemma EvilAtExpiry(r: seq<BadIPRange>, ip: u32, k: nat)
    requires Valid(r)
    requires k < |r| && r[k].Contains(ip)
    ensures EvilSpec(Some(r), ip, r[k].data.expires) == Returns(r[k].data.status)
  {
    EvilHit(r, ip, r[k].data.expires, k);
  }

  /** On a valid table and below its last `rangeTo`, an address in no entry answers `""`. */
  lemma EvilMiss(r: seq<BadIPRange>, ip: u32, now: Time)
    requires Valid(r)
    requires r != [] && ip <= r[|r| - 1].rangeTo
    requires forall k :: 0 <= k < |r| ==> !r[k].Contains(ip)
    ensures EvilSpec(Some(r), ip, now) == Returns("")
  {
    LookupMiss(r, ip);
  }

  /** On a sorted table the evil lookup panics exactly when `ip` is above every `rangeTo`. */
  lemma EvilPanicsIff(r: seq<BadIPRange>, ip: u32, now: Time)
    requires SortedByTo(r)
    ensures EvilSpec(Some(r), ip, now).IndexPanic? <==> r == [] || r[|r| - 1].rangeTo < ip
  {
    LookupPanicsIff(r, ip);
  }

  /** 2038-01-19 03:14:08 UTC, 2^31 seconds after the Unix epoch, in nanoseconds since the zero time. */
  const UnixLimit: Time := (62135596800 + 2147483648) * 1_000_000_000

  /** The test's table, built at instant `t0`: one entry expiring at `t0`, two at `UnixLimit`. */
  function TestTable(t0: Time): (r: seq<BadIPRange>)
    ensures Valid(r)
  {
    var r := [
      Entry(387534209, 387534209, BadIPRecord("expired", t0)),
      Entry(387534210, 387534213, BadIPRecord("bad", UnixLimit)),
      Entry(387534214, 387534214, BadIPRecord("badder", UnixLimit))
    ];
    ChainedIsValid(r);
    r
  }

  /**
   * The test's four cases, looked up at an instant `now` later than the
   * table's construction and not later than `UnixLimit`.
   */
  lemma TestLookupBadIp(t0: Time, now: Time)
    requires t0 < now <= UnixLimit
    ensures EvilSpec(Some(TestTable(t0)), 387534201, now) == Returns("")
    ensures EvilSpec(Some(TestTable(t0)), 387534209, now) == Returns("")
    ensures EvilSpec(Some(TestTable(t0)), 387534214, now) == Returns("badder")
    ensures EvilSpec(Some(TestTable(t0)), 387534212, now) == Returns("bad")
  {
    var r := TestTable(t0);
    EvilMiss(r, 387534201, now);
    EvilHit(r, 387534209, now, 0);
    EvilHit(r, 387534214, now, 2);
    EvilHit(r, 387534212, now, 1);
  }
}
