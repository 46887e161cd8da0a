/**
 * What the two on-disk formats share: the 8-byte magic `"rgipMap\0"`, Go's
 * `encoding/binary.LittleEndian` on 32-bit values, and the 12-byte record of
 * one address range: `rangeFrom`, `rangeTo` and `uint32(data)`, each as four
 * little-endian bytes.
 */
module Layout {
  import opened Machine
  import opened RangeTable

  /** `magicBytes`: the ASCII letters `rgipMap` followed by a zero byte. */
  const Magic: seq<byte> := [0x72, 0x67, 0x69, 0x70, 0x4D, 0x61, 0x70, 0x00]

  /** The four bytes `binary.LittleEndian.PutUint32` stores for `x`, least significant first. */
  function LE32(x: u32): (b: seq<byte>)
    ensures |b| == 4
  {
    [x % 0x100, (x / 0x100) % 0x100, (x / 0x1_0000) % 0x100, x / 0x100_0000]
  }

  /** `binary.LittleEndian.Uint32(b)`: the value of the first four bytes of `b`. */
  function Uint32(b: seq<byte>): (x: u32)
    requires |b| >= 4
  {
    var b0: int, b1: int, b2: int, b3: int := b[0], b[1], b[2], b[3];
    b0 + 0x100 * b1 + 0x1_0000 * b2 + 0x100_0000 * b3
  }

  /** Reading back the four bytes written for `x` gives `x`, whatever follows them. */
  lemma Uint32OfLE32(x: u32, rest: seq<byte>)
    ensures Uint32(LE32(x) + rest) == x
  {
    var b := LE32(x) + rest;
    var q1 := x / 0x100;
    var q2 := q1 / 0x100;
    var q3 := q2 / 0x100;
    assert x == b[0] + 0x100 * q1;
    assert q1 == b[1] + 0x100 * q2;
    assert q2 == b[2] + 0x100 * q3;
    assert q3 == x / 0x100_0000;
  }

  /** Writing the value read from four bytes gives those four bytes back. */
  lemma LE32OfUint32(b: seq<byte>)
    requires |b| >= 4
    ensures LE32(Uint32(b)) == b[..4]
  {
    var x := Uint32(b);
    var b0: int, b1: int, b2: int, b3: int := b[0], b[1], b[2], b[3];
    var q1, q2 := b1 + 0x100 * b2 + 0x1_0000 * b3, b2 + 0x100 * b3;
    DivideBy(x, 0x100, q1, b0);
    DivideBy(q1, 0x100, q2, b1);
    DivideBy(x, 0x1_0000, q2, b0 + 0x100 * b1);
    DivideBy(q2, 0x100, b3, b2);
    DivideBy(x, 0x100_0000, b3, b0 + 0x100 * b1 + 0x1_0000 * b2);
  }

  /** Euclidean division is unique: a quotient and remainder that rebuild `x` are the ones `/` and `%` give. */
  lemma DivideBy(x: int, d: int, q: int, r: int)
    requires d == 0x100 || d == 0x1_0000 || d == 0x100_0000
    requires 0 <= r < d && x == d * q + r
    ensures x / d == q && x % d == r
  {
    if d == 0x100 {
      assert x == 0x100 * q + r;
    } else if d == 0x1_0000 {
      assert x == 0x1_0000 * q + r;
    } else {
      assert x == 0x100_0000 * q + r;
    }
  }

  /** The size of one encoded range, `ipRangeSize`. */
  const RecordSize: nat := 12

  type IpRange = Entry<i32>

  /** The 12 bytes of one range record. */
  function EncodeRange(e: IpRange): (b: seq<byte>)
    ensures |b| == RecordSize
  {
    LE32(e.rangeFrom) + LE32(e.rangeTo) + LE32(U32OfI32(e.data))
  }

  /** The range held by the first 12 bytes of `b`. */
  function DecodeRange(b: seq<byte>): IpRange
    requires |b| >= RecordSize
  {
    Entry(Uint32(b), Uint32(b[4..]), I32OfU32(Uint32(b[8..])))
  }

  /** A record is read from its own 12 bytes only. */
  lemma DecodeRangePrefix(b: seq<byte>)
    requires |b| >= RecordSize
    ensures DecodeRange(b[..RecordSize]) == DecodeRange(b)
  {
    var p := b[..RecordSize];
    assert p[4..][..4] == b[4..][..4];
    assert p[8..][..4] == b[8..][..4];
  }

  lemma DecodeEncodeRange(e: IpRange, rest: seq<byte>)
    ensures DecodeRange(EncodeRange(e) + rest) == e
  {
    var b := EncodeRange(e) + rest;
    Uint32OfLE32(e.rangeFrom, b[4..]);
    assert b[4..] == LE32(e.rangeTo) + b[8..];
    Uint32OfLE32(e.rangeTo, b[8..]);
    assert b[8..] == LE32(U32OfI32(e.data)) + rest;
    Uint32OfLE32(U32OfI32(e.data), rest);
    CastRoundTrip(e.data, 0);
  }

  lemma EncodeDecodeRange(b: seq<byte>)
    requires |b| >= RecordSize
    ensures EncodeRange(DecodeRange(b)) == b[..RecordSize]
  {
    var e := DecodeRange(b);
    LE32OfUint32(b);
    LE32OfUint32(b[4..]);
    LE32OfUint32(b[8..]);
    CastRoundTrip(0, Uint32(b[8..]));
    assert b[..RecordSize] == b[..4] + b[4..][..4] + b[8..][..4];
  }

  /** The records of `rs`, one after another, as the writers lay them out. */
  function EncodeRanges(rs: seq<IpRange>): (b: seq<byte>)
    ensures |b| == 12 * |rs|
  {
    if rs == [] then [] else EncodeRanges(rs[..|rs| - 1]) + EncodeRange(rs[|rs| - 1])
  }

  /** `n` records read back to back from the start of `b`. */
  function DecodeRanges(b: seq<byte>, n: nat): (rs: seq<IpRange>)
    requires |b| >= 12 * n
    ensures |rs| == n
  {
    seq(n, i requires 0 <= i < n => DecodeRange(b[12 * i..]))
  }

  /** Reading one more record appends the range it holds. */
  lemma DecodeRangesSnoc(b: seq<byte>, n: nat)
    requires |b| >= 12 * (n + 1)
    ensures DecodeRanges(b, n + 1) == DecodeRanges(b, n) + [DecodeRange(b[12 * n..])]
  {
  }

  /** Encoding one more range appends its record. */
  lemma EncodeRangesSnoc(rs: seq<IpRange>, i: nat)
    requires i < |rs|
    ensures EncodeRanges(rs[..i + 1]) == EncodeRanges(rs[..i]) + EncodeRange(rs[i])
  {
    assert rs[..i + 1][..i] == rs[..i];
  }

  /** Encoding two lists one after the other is encoding their concatenation. */
  lemma {:induction false} EncodeRangesAppend(a: seq<IpRange>, b: seq<IpRange>)
    ensures EncodeRanges(a + b) == EncodeRanges(a) + EncodeRanges(b)
  {
    if b != [] {
      var b' := b[..|b| - 1];
      assert (a + b)[..|a + b| - 1] == a + b';
      EncodeRangesAppend(a, b');
    } else {
      assert a + b == a;
    }
  }

  /** The encoding of `rs` around record `i`: the records before it, its own, those after it. */
  lemma EncodeRangesSplit(rs: seq<IpRange>, i: nat)
    requires i < |rs|
    ensures EncodeRanges(rs) == EncodeRanges(rs[..i]) + (EncodeRange(rs[i]) + EncodeRanges(rs[i + 1..]))
  {
    var pre, post := rs[..i], rs[i + 1..];
    var tail := [rs[i]] + post;
    assert EncodeRanges(rs) == EncodeRanges(pre) + EncodeRanges(tail) by {
      SplitAt(rs, i);
      EncodeRangesAppend(pre, tail);
    }
    assert EncodeRanges(tail) == EncodeRange(rs[i]) + EncodeRanges(post) by {
      EncodeRangesAppend([rs[i]], post);
      assert [rs[i]][..0] == [];
    }
  }

  /** Record `i` of the encoding of `rs` sits at byte offset 12 i. */
  lemma EncodeRangesAt(rs: seq<IpRange>, i: nat, rest: seq<byte>)
    requires i < |rs|
    ensures (EncodeRanges(rs) + rest)[12 * i..] == EncodeRange(rs[i]) + (EncodeRanges(rs[i + 1..]) + rest)
  {
    EncodeRangesSplit(rs, i);
    SkipPrefix(EncodeRanges(rs[..i]), EncodeRange(rs[i]), EncodeRanges(rs[i + 1..]), rest);
  }

  lemma AppendAssoc<T>(a: seq<T>, b: seq<T>, c: seq<T>)
    ensures a + b + c == a + (b + c)
  {
  }

  lemma AppendFrame<T>(w: seq<T>, a: seq<T>, b: seq<T>, c: seq<T>, d: seq<T>)
    ensures w + a + b + c + d == w + (a + b + c + d)
  {
  }

  lemma SplitAt<T>(s: seq<T>, i: nat)
    requires i < |s|
    ensures s == s[..i] + ([s[i]] + s[i + 1..])
  {
  }

  lemma SkipPrefix<T>(x: seq<T>, y: seq<T>, z: seq<T>, rest: seq<T>)
    ensures (x + (y + z) + rest)[|x|..] == y + (z + rest)
  {
    assert x + (y + z) + rest == x + (y + (z + rest));
  }

  /** Decoding `|rs|` records from the encoding of `rs` gives `rs` back. */
  lemma {:induction false} DecodeEncodeRanges(rs: seq<IpRange>, rest: seq<byte>)
    ensures DecodeRanges(EncodeRanges(rs) + rest, |rs|) == rs
  {
    var b := EncodeRanges(rs) + rest;
    forall i | 0 <= i < |rs|
      ensures DecodeRanges(b, |rs|)[i] == rs[i]
    {
      var after := EncodeRanges(rs[i + 1..]) + rest;
      EncodeRangesAt(rs, i, rest);
      DecodeEncodeRange(rs[i], after);
    }
  }

  /** Encoding the `n` records read from `b` gives back the first 12 n bytes of `b`. */
  lemma {:induction false} EncodeDecodeRanges(b: seq<byte>, n: nat)
    requires |b| >= 12 * n
    ensures EncodeRanges(DecodeRanges(b, n)) == b[..12 * n]
  {
    if n > 0 {
      var rs := DecodeRanges(b, n);
      var k := 12 * (n - 1);
      assert EncodeRanges(rs[..n - 1]) == b[..k] by {
        assert rs[..n - 1] == DecodeRanges(b, n - 1);
        EncodeDecodeRanges(b, n - 1);
      }
      assert EncodeRange(rs[n - 1]) == b[k..][..RecordSize] by {
        EncodeDecodeRange(b[k..]);
      }
      SplitRecord(b, k);
    }
  }

  lemma SplitRecord(b: seq<byte>, k: nat)
    requires k + RecordSize <= |b|
    ensures b[..k + RecordSize] == b[..k] + b[k..][..RecordSize]
  {
  }
}
