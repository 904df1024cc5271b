/** One index record of a PAK archive: a 52-byte little-endian fixed header
    (u64 offset, u64 uncompressed size, u64 compressed size, u32 flags,
    24-byte time) followed by the encoded name and a terminating zero byte. */
module IndexRecord {
  import opened Wrappers
  import opened Bytes

  const FIXED_SIZE: nat := 52
  const TIME_SIZE: nat := 24
  /** Flag bit that marks a directory record. */
  const DIR_FLAG: nat := 0x10

  type u32 = x: nat | x < 0x1_0000_0000
  type u64 = x: nat | x < 0x1_0000_0000_0000_0000
  /** The fixed-size time field. */
  type Time = b: Bytes | |b| == 24 witness seq(24, _ => 0)

  /** Every field has the width `struct.pack("<QQQI24s", ...)` gives it. */
  datatype Record = Record(offset: u64, usize: u64, csize: u64, flags: u32, time: Time, name: Bytes)

  /** `flags & 0x10` is non-zero. */
  predicate IsDirFlags(flags: nat) {
    flags % (2 * DIR_FLAG) >= DIR_FLAG
  }

  /** A record whose name has no zero byte, so the terminator the decoder
      looks for is the one the encoder wrote. */
  predicate WellFormed(r: Record) {
    0 !in r.name
  }

  /** The bytes one record occupies in the uncompressed index. */
  function EncodeRecord(r: Record): (b: Bytes)
    ensures |b| == FIXED_SIZE + |r.name| + 1
    ensures b[|b| - 1] == 0
  {
    Pow256Widths();
    ToLE(r.offset, 8) + ToLE(r.usize, 8) + ToLE(r.csize, 8) + ToLE(r.flags, 4)
      + r.time + r.name + [0]
  }

  /** Position of the first zero byte at or after `from` (`bytes.find`). */
  function FindZero(buf: Bytes, from: nat): (r: Option<nat>)
    ensures r.Some? ==> from <= r.value < |buf| && buf[r.value] == 0
    decreases |buf| - from
  {
    if from >= |buf| then None
    else if buf[from] == 0 then Some(from)
    else FindZero(buf, from + 1)
  }

  /** `FindZero` finds the FIRST zero, and finds none exactly when there
      is none. */
  lemma {:induction false} FindZeroFirst(buf: Bytes, from: nat)
    ensures FindZero(buf, from).Some? ==> forall j :: from <= j < FindZero(buf, from).value ==> buf[j] != 0
    ensures FindZero(buf, from).None? <==> forall j :: from <= j < |buf| ==> buf[j] != 0
    decreases |buf| - from
  {
    if from < |buf| && buf[from] != 0 {
      FindZeroFirst(buf, from + 1);
    }
  }

  /** The record whose fixed header starts at `pos` and whose name ends at
      the zero byte at `z`. */
  function RecordAt(buf: Bytes, pos: nat, z: nat): Record
    requires pos + FIXED_SIZE <= z < |buf|
  {
    Pow256Widths();
    Record(FromLE(buf[pos..pos + 8]), FromLE(buf[pos + 8..pos + 16]),
           FromLE(buf[pos + 16..pos + 24]), FromLE(buf[pos + 24..pos + 28]),
           buf[pos + 28..pos + 52], buf[pos + 52..z])
  }

  lemma SliceSplit(buf: Bytes, a: nat, b: nat, c: nat)
    requires a <= b <= c <= |buf|
    ensures buf[a..c] == buf[a..b] + buf[b..c]
  {
  }

  /** The bytes a record was read from are that record's encoding. */
  lemma RecordAtEncodes(buf: Bytes, pos: nat, z: nat)
    requires pos + FIXED_SIZE <= z < |buf|
    requires buf[z] == 0
    ensures buf[pos..z + 1] == EncodeRecord(RecordAt(buf, pos, z))
  {
    RecordBytesSplit(buf, pos, z);
    Pow256Widths();
    ToLEFromLE(buf[pos..pos + 8]);
    ToLEFromLE(buf[pos + 8..pos + 16]);
    ToLEFromLE(buf[pos + 16..pos + 24]);
    ToLEFromLE(buf[pos + 24..pos + 28]);
  }

  lemma RecordBytesSplit(buf: Bytes, pos: nat, z: nat)
    requires pos + FIXED_SIZE <= z < |buf|
    requires buf[z] == 0
    ensures buf[pos..z + 1] == buf[pos..pos + 8] + buf[pos + 8..pos + 16] + buf[pos + 16..pos + 24]
                               + buf[pos + 24..pos + 28] + buf[pos + 28..pos + 52] + buf[pos + 52..z] + [0]
  {
    SliceSplit(buf, pos, pos + 8, z + 1);
    SliceSplit(buf, pos + 8, pos + 16, z + 1);
    SliceSplit(buf, pos + 16, pos + 24, z + 1);
    SliceSplit(buf, pos + 24, pos + 28, z + 1);
    SliceSplit(buf, pos + 28, pos + 52, z + 1);
    SliceSplit(buf, pos + 52, z, z + 1);
    assert buf[z..z + 1] == [0];
  }

  /** Reads the record starting at `pos`; on success also returns the
      position just past its terminating zero. */
  function DecodeRecord(buf: Bytes, pos: nat): (r: Result<(Record, nat)>)
    ensures r.Success? ==> r.value.1 == pos + FIXED_SIZE + |r.value.0.name| + 1 <= |buf|
  {
    if pos + FIXED_SIZE > |buf| then Failure(IndexEntryTruncated)
    else
      match FindZero(buf, pos + FIXED_SIZE)
      case None => Failure(NameUnterminated)
      case Some(nameEnd) => Success((RecordAt(buf, pos, nameEnd), nameEnd + 1))
  }

  /** What a record was read from is exactly that record's encoding, and
      its name holds no zero byte. */
  lemma DecodeRecordBytes(buf: Bytes, pos: nat)
    requires DecodeRecord(buf, pos).Success?
    ensures var (rec, next) := DecodeRecord(buf, pos).value;
            WellFormed(rec) && buf[pos..next] == EncodeRecord(rec)
  {
    var z := FindZero(buf, pos + FIXED_SIZE).value;
    FindZeroFirst(buf, pos + FIXED_SIZE);
    RecordAtEncodes(buf, pos, z);
    var name := RecordAt(buf, pos, z).name;
    forall k | 0 <= k < |name| ensures name[k] != 0 {
      assert name[k] == buf[pos + FIXED_SIZE + k];
    }
  }

  /** Reading a record fails exactly when fewer than 52 bytes remain, or
      when no zero byte follows the fixed header. */
  lemma DecodeRecordFailure(buf: Bytes, pos: nat)
    ensures DecodeRecord(buf, pos).Failure? <==>
      pos + FIXED_SIZE > |buf| || forall j :: pos + FIXED_SIZE <= j < |buf| ==> buf[j] != 0
    ensures pos + FIXED_SIZE > |buf| ==> DecodeRecord(buf, pos) == Failure(IndexEntryTruncated)
    ensures pos + FIXED_SIZE <= |buf| && DecodeRecord(buf, pos).Failure? ==>
      DecodeRecord(buf, pos) == Failure(NameUnterminated)
  {
    FindZeroFirst(buf, pos + FIXED_SIZE);
  }

  /** Where each field sits inside a record's encoding. */
  lemma EncodeRecordFields(r: Record)
    ensures Pow256(8) == U64_LIMIT && Pow256(4) == U32_LIMIT
    ensures EncodeRecord(r)[0..8] == ToLE(r.offset, 8)
    ensures EncodeRecord(r)[8..16] == ToLE(r.usize, 8)
    ensures EncodeRecord(r)[16..24] == ToLE(r.csize, 8)
    ensures EncodeRecord(r)[24..28] == ToLE(r.flags, 4)
    ensures EncodeRecord(r)[28..52] == r.time
    ensures EncodeRecord(r)[52..52 + |r.name|] == r.name
  {
    Pow256Widths();
  }

  /** Records with the same encoding are the same record. */
  lemma EncodeRecordInjective(a: Record, b: Record)
    requires EncodeRecord(a) == EncodeRecord(b)
    ensures a == b
  {
    EncodeRecordFields(a);
    EncodeRecordFields(b);
  }

  /** Decoding the bytes of a well-formed record, wherever they sit in a
      buffer, gives the record back and steps exactly past it. */
  lemma DecodeEncodeRecord(buf: Bytes, pos: nat, r: Record)
    requires WellFormed(r)
    requires pos + |EncodeRecord(r)| <= |buf|
    requires buf[pos..pos + |EncodeRecord(r)|] == EncodeRecord(r)
    ensures DecodeRecord(buf, pos) == Success((r, pos + |EncodeRecord(r)|))
  {
    var e := EncodeRecord(r);
    var z := pos + FIXED_SIZE + |r.name|;
    FindNameEnd(buf, pos, r);
    DecodeRecordBytes(buf, pos);
    var res := DecodeRecord(buf, pos);
    assert res.Success?;
    var (rec, next) := res.value;
    assert next == z + 1;
    assert buf[pos..next] == e;
    EncodeRecordInjective(rec, r);
  }

  lemma FindNameEnd(buf: Bytes, pos: nat, r: Record)
    requires WellFormed(r)
    requires pos + |EncodeRecord(r)| <= |buf|
    requires buf[pos..pos + |EncodeRecord(r)|] == EncodeRecord(r)
    ensures FindZero(buf, pos + FIXED_SIZE) == Some(pos + FIXED_SIZE + |r.name|)
  {
    var z := pos + FIXED_SIZE + |r.name|;
    var name := buf[pos + FIXED_SIZE..z];
    assert name == r.name by {
      EncodeRecordFields(r);
      SliceOfSlice(buf, pos, pos + |EncodeRecord(r)|, FIXED_SIZE, FIXED_SIZE + |r.name|);
    }
    assert buf[z] == 0 by {
      assert buf[z] == buf[pos..pos + |EncodeRecord(r)|][|EncodeRecord(r)| - 1];
    }
    forall j | pos + FIXED_SIZE <= j < z
      ensures buf[j] != 0
    {
      assert buf[j] == name[j - pos - FIXED_SIZE];
    }
    FindZeroIs(buf, pos + FIXED_SIZE, z);
  }

  lemma SliceOfSlice(buf: Bytes, a: nat, b: nat, i: nat, j: nat)
    requires a <= b <= |buf| && i <= j <= b - a
    ensures buf[a..b][i..j] == buf[a + i..a + j]
  {
    assert forall k :: 0 <= k < j - i ==> buf[a..b][i..j][k] == buf[a + i + k];
  }

  /** The first zero at or after `from` is at `z`. */
  lemma FindZeroIs(buf: Bytes, from: nat, z: nat)
    requires from <= z < |buf| && buf[z] == 0
    requires forall j :: from <= j < z ==> buf[j] != 0
    ensures FindZero(buf, from) == Some(z)
  {
    var f := FindZero(buf, from);
    FindZeroFirst(buf, from);
    assert f.Some?;
    assert !(f.value < z);
    assert !(f.value > z);
  }

  /** The index bytes of a record list: the records' encodings back to back. */
  function EncodeAll(rs: seq<Record>): (b: Bytes)
  {
    if |rs| == 0 then [] else EncodeRecord(rs[0]) + EncodeAll(rs[1..])
  }

  lemma {:induction false} EncodeAllAppend(a: seq<Record>, b: seq<Record>)
    ensures EncodeAll(a + b) == EncodeAll(a) + EncodeAll(b)
  {
    if |a| > 0 {
      assert (a + b)[1..] == a[1..] + b;
      EncodeAllAppend(a[1..], b);
    } else {
      assert a + b == b;
    }
  }

  /** Every record takes at least 53 bytes, the decoder's termination measure. */
  lemma {:induction false} EncodeAllLength(rs: seq<Record>)
    ensures |EncodeAll(rs)| >= (FIXED_SIZE + 1) * |rs|
  {
    if |rs| > 0 {
      EncodeAllLength(rs[1..]);
    }
  }
}
