/**
 * badIpRange.go: the same expiring-status table as badiprange.go, but the
 * lookup reports a miss as an error value `"ip %d not found"` instead of a
 * bool. The clock is a parameter `now`.
 */
module BadIpRangeErr {
  import opened Machine
  import opened Wrappers
  import opened Strconv
  import opened RangeTable
  import Bool = BadIPRangeBool

  /** `BadIPRecord`: a status and the instant after which it no longer applies. */
  datatype BadIPRecord = BadIPRecord(status: string, expires: Time)

  /** `BadIPRecord{}`. */
  const ZeroRecord: BadIPRecord := BadIPRecord("", ZeroTime)

  type BadIpRange = Entry<BadIPRecord>

  /** The error a miss returns, `fmt.Errorf("ip %d not found", ip32)`. */
  datatype LookupError = NotFound(ip: u32) {
    /** The text of the error. */
    function Message(): string {
      "ip " + FormatUint(ip) + " not found"
    }
  }

  /** The address of a not-found error can be read back from its message. */
  lemma MessageNamesAddress(e: LookupError)
    ensures var m := e.Message();
      |m| > 13 && m[..3] == "ip " && m[|m| - 10..] == " not found" && Atoi(m[3..|m| - 10]) == Ok(e.ip)
  {
    var m := e.Message();
    var digits := FormatUint(e.ip);
    assert m[3..|m| - 10] == digits;
    AtoiFormatUint(e.ip);
  }

  /**
   * What `badIpRangeList.lookup` does on a table sorted by `rangeTo`: the
   * record and a nil error (`None`) on a hit, the zero record and an error on
   * a miss, and a panic past the last entry.
   */
  function LookupSpec(r: seq<BadIpRange>, ip: u32): Outcome<(BadIPRecord, Option<LookupError>)> {
    var idx := FirstAtLeast(r, ip);
    if idx == |r| then IndexPanic
    else if r[idx].rangeFrom <= ip && ip <= r[idx].rangeTo then Returns((r[idx].data, None))
    else Returns((ZeroRecord, Some(NotFound(ip))))
  }

  /**
   * `badIpRangeList.lookup`. Whatever the order of `r`, a nil error comes with
   * the record of an entry containing `ip`, an error names `ip` and comes
   * with the zero record, and a panic means the last entry ends below `ip`.
   */
  method Lookup(r: seq<BadIpRange>, ip: u32) returns (o: Outcome<(BadIPRecord, Option<LookupError>)>)
    ensures o.IndexPanic? ==> r == [] || r[|r| - 1].rangeTo < ip
    ensures o.Returns? && o.value.1.None? ==> exists k :: 0 <= k < |r| && r[k].Contains(ip) && r[k].data == o.value.0
    ensures o.Returns? && o.value.1.Some? ==> o.value == (ZeroRecord, Some(NotFound(ip)))
    ensures SortedByTo(r) ==> o == LookupSpec(r, ip)
  {
    var idx := Search(r, ip);
    if idx == |r| {
      return IndexPanic;
    }
    if r[idx].rangeFrom <= ip && ip <= r[idx].rangeTo {
      return Returns((r[idx].data, None));
    }
    return Returns((ZeroRecord, Some(NotFound(ip))));
  }

  /** On a valid table, an address inside entry `k` returns `k`'s record and no error. */
  lemma LookupHit(r: seq<BadIpRange>, ip: u32, k: nat)
    requires Valid(r)
    requires k < |r| && r[k].Contains(ip)
    ensures LookupSpec(r, ip) == Returns((r[k].data, None))
  {
    FirstAtLeastIsOnlyCandidate(r, ip, k);
  }

  /** On a sorted table, below its last `rangeTo`, an address in no entry is reported not found. */
  lemma LookupMiss(r: seq<BadIpRange>, ip: u32)
    requires SortedByTo(r)
    requires r != [] && ip <= r[|r| - 1].rangeTo
    requires forall k :: 0 <= k < |r| ==> !r[k].Contains(ip)
    ensures LookupSpec(r, ip) == Returns((ZeroRecord, Some(NotFound(ip))))
  {
  }

  /** What `EvilIPList.lookup` returns at instant `now`: the status of an unexpired hit, else `""`. */
  function EvilSpec(table: Option<seq<BadIpRange>>, ip: u32, now: Time): Outcome<string> {
    if table.None? then Returns("")
    else
      var o := LookupSpec(table.value, ip);
      if o.IndexPanic? then IndexPanic
      else if o.value.1.Some? then Returns("")
      else if After(now, o.value.0.expires) then Returns("")
      else Returns(o.value.0.status)
  }

  /**
   * `EvilIPList.lookup`, with `time.Now()` passed in as `now`. Whatever the
   * order of the table, a non-empty answer is the status of an entry that
   * contains `ip` and has not expired at `now`.
   */
  method EvilLookup(table: Option<seq<BadIpRange>>, ip: u32, now: Time) returns (o: Outcome<string>)
    ensures table.None? ==> o == Returns("")
    ensures o.Returns? && o.value != "" ==>
      && table.Some?
      && exists k ::
           && 0 <= k < |table.value| && table.value[k].Contains(ip)
           && table.value[k].data.status == o.value && !After(now, table.value[k].data.expires)
    ensures table.Some? && SortedByTo(table.value) ==> o == EvilSpec(table, ip, now)
  {
    if table.None? {
      return Returns("");
    }
    var found := Lookup(table.value, ip);
    if found.IndexPanic? {
      return IndexPanic;
    }
    var (data, err) := found.value;
    if err.Some? {
      return Returns("");
    }
    if After(now, data.expires) {
      return Returns("");
    }
    return Returns(data.status);
  }

  /** On a valid table, a hit in entry `k` answers its status up to and including its expiry instant, `""` after it. */
  lemma EvilHit(r: seq<BadIpRange>, ip: u32, now: Time, k: nat)
    requires Valid(r)
    requires k < |r| && r[k].Contains(ip)
    ensures EvilSpec(Some(r), ip, now) == Returns(if now > r[k].data.expires then "" else r[k].data.status)
  {
    LookupHit(r, ip, k);
  }

  // ---------------------------------------------------------------------------
  // Agreement with badiprange.go

  /** The same record in badiprange.go's type. */
  function ToBoolRecord(d: BadIPRecord): Bool.BadIPRecord {
    Bool.BadIPRecord(d.status, d.expires)
  }

  /** The same table in badiprange.go's type: the same ranges with the same records. */
  function ToBoolTable(table: Option<seq<BadIpRange>>): (t: Option<seq<Bool.BadIPRange>>)
    ensures t.None? <==> table.None?
  {
    if table.None? then None else Some(MapData(table.value, ToBoolRecord))
  }

  /**
   * The two range lookups agree on every table: both panic at the same
   * addresses, a nil error here is `true` there, and the records correspond.
   */
  lemma LookupAgrees(r: seq<BadIpRange>, ip: u32)
    ensures var a, b := LookupSpec(r, ip), Bool.LookupSpec(MapData(r, ToBoolRecord), ip);
      && (a.IndexPanic? <==> b.IndexPanic?)
      && (a.Returns? ==> (a.value.1.None? <==> b.value.1) && ToBoolRecord(a.value.0) == b.value.0)
  {
    FirstAtLeastMapData(r, ToBoolRecord, ip);
  }

  /** For the same entries and instant, both evil lookups return the same string, or both panic. */
  lemma EvilAgrees(table: Option<seq<BadIpRange>>, ip: u32, now: Time)
    ensures EvilSpec(table, ip, now) == Bool.EvilSpec(ToBoolTable(table), ip, now)
  {
    if table.Some? {
      LookupAgrees(table.value, ip);
    }
  }

  /** The test's table, built at instant `t0`: one entry expiring at `t0`, two at 2038-01-19 03:14:08 UTC. */
  function TestTable(t0: Time): (r: seq<BadIpRange>)
    ensures Valid(r)
  {
    var r := [
      Entry(387534209, 387534209, BadIPRecord("expired", t0)),
      Entry(387534210, 387534213, BadIPRecord("bad", Bool.UnixLimit)),
      Entry(387534214, 387534214, BadIPRecord("badder", Bool.UnixLimit))
    ];
    ChainedIsValid(r);
    r
  }

  /** The test's three cases, looked up at an instant later than the table's construction and not after 2038. */
  lemma TestLookupBadIp(t0: Time, now: Time)
    requires t0 < now <= Bool.UnixLimit
    ensures EvilSpec(Some(TestTable(t0)), 387534209, now) == Returns("")
    ensures EvilSpec(Some(TestTable(t0)), 387534214, now) == Returns("badder")
    ensures EvilSpec(Some(TestTable(t0)), 387534212, now) == Returns("bad")
  {
    var r := TestTable(t0);
    EvilHit(r, 387534209, now, 0);
    EvilHit(r, 387534214, now, 2);
    EvilHit(r, 387534212, now, 1);
  }
}
