/** The 16-byte global header and the 24-byte extended header of a PAK
    archive, and the decoder's search for the extended header. */
module PakHeader {
  import opened Wrappers
  import opened Bytes

  /** "PAK\0" */
  const MAGIC: Bytes := [0x50, 0x41, 0x4B, 0x00]
  const GLOBAL_SIZE: nat := 16
  const EXT_SIZE: nat := 24
  /** Version tag the encoder writes into the global header. */
  const VERSION: nat := 0x00060010

  /** What `read_header` reports. */
  datatype Header = Header(
    headerOffset: nat,
    indexRel: nat,
    rootCount: nat,
    indexUncompressed: nat,
    indexCompressed: nat,
    indexOffset: nat,
    dataOffset: nat,
    unknown1: nat,
    unknown2: nat)

  /** The little-endian u32 at `pos`. */
  function U32At(b: Bytes, pos: nat): (v: nat)
    requires pos + 4 <= |b|
    ensures v < U32_LIMIT
  {
    Pow256Widths();
    FromLE(b[pos..pos + 4])
  }

  /** The global header's 32-bit extended-header field. */
  function RawHeaderField(b: Bytes): nat
    requires |b| >= GLOBAL_SIZE
  {
    U32At(b, 4)
  }

  /** Extended-header offsets to try, in order: the low 16 bits of the raw
      field, then the raw value itself when it differs. */
  function Candidates(raw: nat): (cs: seq<nat>)
    ensures 1 <= |cs| <= 2 && cs[0] == raw % 0x10000
    ensures |cs| == 2 <==> raw != raw % 0x10000
    ensures |cs| == 2 ==> cs[1] == raw
  {
    var low := raw % 0x10000;
    if raw == low then [low] else [low, raw]
  }

  /** The extended header read at candidate offset c. */
  function ExtHeaderAt(b: Bytes, c: nat): (h: Header)
    requires c + EXT_SIZE <= |b|
    ensures h.headerOffset == c
    ensures h.indexOffset == c + h.indexRel
    ensures h.dataOffset == h.indexOffset + h.indexCompressed
  {
    var rel := U32At(b, c);
    var compressed := U32At(b, c + 16);
    Header(c, rel, U32At(b, c + 8), U32At(b, c + 12), compressed,
           c + rel, c + rel + compressed, U32At(b, c + 4), U32At(b, c + 20))
  }

  /** Candidate c is accepted: the extended header fits, both index sizes
      are non-zero and the data section starts inside the archive. */
  predicate Qualifies(b: Bytes, c: nat) {
    && c + EXT_SIZE <= |b|
    && ExtHeaderAt(b, c).indexUncompressed != 0
    && ExtHeaderAt(b, c).indexCompressed != 0
    && ExtHeaderAt(b, c).dataOffset <= |b|
  }

  /** An accepted candidate's compressed index is a non-empty slice of the
      archive, and the index fields it was read from are in the file. */
  lemma QualifiesIndexInside(b: Bytes, c: nat)
    requires Qualifies(b, c)
    ensures c + EXT_SIZE <= |b|
    ensures var h := ExtHeaderAt(b, c);
            0 < h.indexCompressed && h.indexOffset + h.indexCompressed <= |b|
  {
  }

  /** The first qualifying candidate from index k on, in order. */
  function FirstQualifying(b: Bytes, cs: seq<nat>, k: nat): (r: Result<Header>)
    requires k <= |cs|
    ensures r.Failure? ==> r.error == NoValidExtHeader
    ensures r.Success? ==> var c := r.value.headerOffset; Qualifies(b, c) && r.value == ExtHeaderAt(b, c)
    decreases |cs| - k
  {
    if k == |cs| then Failure(NoValidExtHeader)
    else if Qualifies(b, cs[k]) then Success(ExtHeaderAt(b, cs[k]))
    else FirstQualifying(b, cs, k + 1)
  }

  /** The search succeeds exactly when some candidate from k on qualifies,
      and then it returns the first such candidate. */
  lemma {:induction false} FirstQualifyingIsFirst(b: Bytes, cs: seq<nat>, k: nat)
    requires k <= |cs|
    ensures var r := FirstQualifying(b, cs, k);
            r.Success? <==> exists i :: k <= i < |cs| && Qualifies(b, cs[i])
    ensures var r := FirstQualifying(b, cs, k);
            r.Success? ==> exists i :: k <= i < |cs| && cs[i] == r.value.headerOffset
                                       && forall j :: k <= j < i ==> !Qualifies(b, cs[j])
    decreases |cs| - k
  {
    if k < |cs| {
      if Qualifies(b, cs[k]) {
        assert ExtHeaderAt(b, cs[k]).headerOffset == cs[k];
      } else {
        FirstQualifyingIsFirst(b, cs, k + 1);
      }
    }
  }

  /** `read_header`: checks length and magic, then takes the first
      qualifying extended-header candidate. */
  function ReadHeader(b: Bytes): (r: Result<Header>)
    ensures |b| < GLOBAL_SIZE ==> r == Failure(HeaderTooShort)
    ensures |b| >= GLOBAL_SIZE && b[..4] != MAGIC ==> r == Failure(BadMagic)
    ensures |b| >= GLOBAL_SIZE && b[..4] == MAGIC ==>
      var raw := RawHeaderField(b);
      var low := raw % 0x10000;
      && (Qualifies(b, low) ==> r == Success(ExtHeaderAt(b, low)))
      && (!Qualifies(b, low) && raw != low && Qualifies(b, raw) ==> r == Success(ExtHeaderAt(b, raw)))
      && (!Qualifies(b, low) && (raw == low || !Qualifies(b, raw)) ==> r == Failure(NoValidExtHeader))
    ensures r.Success? ==>
      var h := r.value;
      && h.indexUncompressed != 0 && h.indexCompressed != 0
      && h.indexOffset == h.headerOffset + h.indexRel
      && h.dataOffset == h.indexOffset + h.indexCompressed
      && h.headerOffset + EXT_SIZE <= |b|
      && h.dataOffset <= |b|
  {
    if |b| < GLOBAL_SIZE then Failure(HeaderTooShort)
    else if b[..4] != MAGIC then Failure(BadMagic)
    else
      var cs := Candidates(RawHeaderField(b));
      assert FirstQualifying(b, cs, |cs|) == Failure(NoValidExtHeader);
      assert !Qualifies(b, cs[0]) ==> FirstQualifying(b, cs, 0) == FirstQualifying(b, cs, 1);
      assert |cs| == 2 && !Qualifies(b, cs[1]) ==> FirstQualifying(b, cs, 1) == FirstQualifying(b, cs, 2);
      FirstQualifying(b, cs, 0)
  }

  /** A container whose extended-header field is a 16-bit value c that
      qualifies is read at c. */
  lemma ReadHeaderAt(b: Bytes, c: nat)
    requires |b| >= GLOBAL_SIZE && b[..4] == MAGIC
    requires RawHeaderField(b) == c && c < 0x10000
    requires Qualifies(b, c)
    ensures ReadHeader(b) == Success(ExtHeaderAt(b, c))
  {
  }

  /** ... and is rejected when c does not qualify. */
  lemma ReadHeaderNone(b: Bytes, c: nat)
    requires |b| >= GLOBAL_SIZE && b[..4] == MAGIC
    requires RawHeaderField(b) == c && c < 0x10000
    requires !Qualifies(b, c)
    ensures ReadHeader(b) == Failure(NoValidExtHeader)
  {
  }

  /** The 16 bytes `save` writes first. */
  function GlobalHeaderBytes(headerOffset: nat): (g: Bytes)
    requires headerOffset < U32_LIMIT
    ensures |g| == GLOBAL_SIZE
  {
    Pow256Widths();
    MAGIC + ToLE(headerOffset, 4) + ToLE(VERSION, 4) + ToLE(0, 4)
  }

  /** The 24 bytes `save` writes after the global header. */
  function ExtHeaderBytes(indexRel: nat, unknown1: nat, rootCount: nat,
                          indexUncompressed: nat, indexCompressed: nat, unknown2: nat): (e: Bytes)
    requires indexRel < U32_LIMIT && unknown1 < U32_LIMIT && rootCount < U32_LIMIT
    requires indexUncompressed < U32_LIMIT && indexCompressed < U32_LIMIT && unknown2 < U32_LIMIT
    ensures |e| == EXT_SIZE
  {
    Pow256Widths();
    ToLE(indexRel, 4) + ToLE(unknown1, 4) + ToLE(rootCount, 4)
      + ToLE(indexUncompressed, 4) + ToLE(indexCompressed, 4) + ToLE(unknown2, 4)
  }

  /** Reading back the extended header at the place it was written gives
      the written fields. */
  lemma ExtHeaderRoundTrip(pre: Bytes, indexRel: nat, unknown1: nat, rootCount: nat,
                           indexUncompressed: nat, indexCompressed: nat, unknown2: nat, post: Bytes)
    requires indexRel < U32_LIMIT && unknown1 < U32_LIMIT && rootCount < U32_LIMIT
    requires indexUncompressed < U32_LIMIT && indexCompressed < U32_LIMIT && unknown2 < U32_LIMIT
    ensures var b := pre + ExtHeaderBytes(indexRel, unknown1, rootCount, indexUncompressed, indexCompressed, unknown2) + post;
            var c := |pre|;
            ExtHeaderAt(b, c) == Header(c, indexRel, rootCount, indexUncompressed, indexCompressed,
                                        c + indexRel, c + indexRel + indexCompressed, unknown1, unknown2)
  {
    Pow256Widths();
    var e := ExtHeaderBytes(indexRel, unknown1, rootCount, indexUncompressed, indexCompressed, unknown2);
    var b := pre + e + post;
    var c := |pre|;
    SliceOfConcat(pre, e, post, 0, 4);
    SliceOfConcat(pre, e, post, 4, 8);
    SliceOfConcat(pre, e, post, 8, 12);
    SliceOfConcat(pre, e, post, 12, 16);
    SliceOfConcat(pre, e, post, 16, 20);
    SliceOfConcat(pre, e, post, 20, 24);
    assert e[0..4] == ToLE(indexRel, 4);
    assert e[4..8] == ToLE(unknown1, 4);
    assert e[8..12] == ToLE(rootCount, 4);
    assert e[12..16] == ToLE(indexUncompressed, 4);
    assert e[16..20] == ToLE(indexCompressed, 4);
    assert e[20..24] == ToLE(unknown2, 4);
  }

  /** Reading back a global header gives its magic and extended-header
      field. */
  lemma GlobalHeaderRoundTrip(headerOffset: nat, post: Bytes)
    requires headerOffset < U32_LIMIT
    ensures var b := GlobalHeaderBytes(headerOffset) + post;
            |b| >= GLOBAL_SIZE && b[..4] == MAGIC && RawHeaderField(b) == headerOffset
  {
    Pow256Widths();
    var g := GlobalHeaderBytes(headerOffset);
    var b := g + post;
    assert b[..4] == g[..4] == MAGIC;
    assert b[4..8] == g[4..8] == ToLE(headerOffset, 4);
  }

  /** A container that starts with a global header pointing at byte 16 and
      an extended header right after it: what `read_header` sees there. */
  lemma ReadBackHeaders(pak: Bytes, indexRel: nat, unknown1: nat, rootCount: nat,
                        indexUncompressed: nat, indexCompressed: nat, unknown2: nat, tail: Bytes)
    requires indexRel < U32_LIMIT && unknown1 < U32_LIMIT && rootCount < U32_LIMIT
    requires indexUncompressed < U32_LIMIT && indexCompressed < U32_LIMIT && unknown2 < U32_LIMIT
    requires pak == GlobalHeaderBytes(GLOBAL_SIZE)
                    + ExtHeaderBytes(indexRel, unknown1, rootCount, indexUncompressed, indexCompressed, unknown2)
                    + tail
    ensures |pak| == GLOBAL_SIZE + EXT_SIZE + |tail|
    ensures pak[..4] == MAGIC && RawHeaderField(pak) == GLOBAL_SIZE
    ensures ExtHeaderAt(pak, GLOBAL_SIZE)
            == Header(16, indexRel, rootCount, indexUncompressed, indexCompressed,
                      16 + indexRel, 16 + indexRel + indexCompressed, unknown1, unknown2)
  {
    ReadBackGlobal(pak, ExtHeaderBytes(indexRel, unknown1, rootCount, indexUncompressed, indexCompressed, unknown2), tail);
    ExtHeaderRoundTrip(GlobalHeaderBytes(GLOBAL_SIZE), indexRel, unknown1, rootCount,
                       indexUncompressed, indexCompressed, unknown2, tail);
  }

  lemma ReadBackGlobal(pak: Bytes, e: Bytes, tail: Bytes)
    requires pak == GlobalHeaderBytes(GLOBAL_SIZE) + e + tail
    ensures pak[..4] == MAGIC && RawHeaderField(pak) == GLOBAL_SIZE
  {
    Assoc(GlobalHeaderBytes(GLOBAL_SIZE), e, tail);
    GlobalHeaderRoundTrip(GLOBAL_SIZE, e + tail);
  }
}
