/** `add_file` always stores the deflated bytes, while `extract_file` reads
    a file whose compressed and uncompressed sizes agree as stored
    uncompressed. A file whose deflated form is exactly as long as the file
    is therefore extracted as its deflated bytes. The builder's `AddFile`
    stores the raw bytes in that case; `AddFileAsWritten` keeps the
    original rule. */
module Finding {
  import opened Wrappers
  import opened Bytes
  import opened IndexRecord
  import opened Deflate
  import opened Meta
  import opened Depress
  import opened Compress
  import opened RoundTrip

  /** The entry the decoder reads for the last entry a builder collected,
      at top level. */
  function ReadBack(b: Builder): (e: Entry)
    requires |b.entries| > 0 && Fits(b.entries[|b.entries| - 1])
    ensures e.path == [b.entries[|b.entries| - 1].name]
  {
    var x := b.entries[|b.entries| - 1];
    Classify(ToRecord(x), [x.name])
  }

  /** As written: when deflating does not change the length, the stored
      bytes are the deflated ones but the decoder passes them through, so
      extraction yields the deflated bytes instead of the file. */
  lemma AsWrittenMisreads(d: Codec, b: Builder, m: Meta, raw: Bytes, b': Builder)
    requires Valid(b)
    requires AddFileAsWritten(d, b, m, Some(raw)) == Success(b')
    requires !IsDirFlags(GetOr(m.attributes, 0))
    requires Fits(b'.entries[|b.entries|])
    requires |d.compress(raw)| == |raw|
    ensures ExtractFile(d, b'.data, ReadBack(b'), 0) == Success(d.compress(raw))
  {
    var x := b'.entries[|b.entries|];
    assert b'.data[x.offset .. x.offset + x.csize] == d.compress(raw);
  }

  /** Corrected: the same file added by `AddFile` is extracted as itself
      for every lossless codec. */
  lemma CorrectedRestores(d: Codec, b: Builder, m: Meta, raw: Bytes, b': Builder)
    requires Lossless(d) && Valid(b)
    requires AddFile(d, b, m, Some(raw)) == Success(b')
    requires !IsDirFlags(GetOr(m.attributes, 0))
    requires Fits(b'.entries[|b.entries|])
    ensures ExtractFile(d, b'.data, ReadBack(b'), 0) == Success(raw)
  {
    var x := b'.entries[|b.entries|];
    assert b'.data[x.offset .. x.offset + x.csize] == Stored(d, raw);
    ExtractStored(d, b'.data, ReadBack(b'), 0, raw);
  }

  /** "abcabc" */
  const ABCABC: Bytes := [0x61, 0x62, 0x63, 0x61, 0x62, 0x63]
  /** Six bytes standing for the raw DEFLATE stream of "abcabc": three
      literals and one back-reference in a fixed-Huffman block take 46 bits. */
  const PACKED: Bytes := [0x02, 0x00, 0x00, 0x00, 0x00, 0x00]

  /** A lossless codec that, like raw DEFLATE on "abcabc", deflates one
      six-byte input to six other bytes; every other input gets a one-byte
      tag. */
  function Witness(): Codec {
    Codec(
      x => if x == ABCABC then PACKED else [0x01] + x,
      y => if y == PACKED then Some(ABCABC)
           else if |y| > 0 && y[0] == 0x01 then Some(y[1..])
           else None)
  }

  lemma WitnessLossless()
    ensures Lossless(Witness()) && NeverEmpty(Witness())
  {
    var d := Witness();
    forall x
      ensures d.decompress(d.compress(x)) == Some(x)
    {
      if x != ABCABC {
        assert d.compress(x) == [0x01] + x;
        assert ([0x01] + x)[1..] == x;
      }
    }
  }

  /** The concrete case: adding "abcabc" as written to an empty builder
      and extracting it gives the six deflated bytes, although the codec is
      lossless; the corrected builder gives "abcabc" back. */
  lemma AbcabcCounterexample(info: HeaderInfo, m: Meta)
    requires !IsDirFlags(GetOr(m.attributes, 0)) && GetOr(m.attributes, 0) < U32_LIMIT
    ensures Lossless(Witness())
    ensures var bad := AddFileAsWritten(Witness(), New(info), m, Some(ABCABC));
            && bad.Success?
            && ExtractFile(Witness(), bad.value.data, ReadBack(bad.value), 0) == Success(PACKED)
            && PACKED != ABCABC
    ensures var good := AddFile(Witness(), New(info), m, Some(ABCABC));
            && good.Success?
            && ExtractFile(Witness(), good.value.data, ReadBack(good.value), 0) == Success(ABCABC)
  {
    var d := Witness();
    WitnessLossless();
    var b := New(info);
    assert d.compress(ABCABC) == PACKED;
    var bad := AddFileAsWritten(d, b, m, Some(ABCABC)).value;
    AsWrittenMisreads(d, b, m, ABCABC, bad);
    var good := AddFile(d, b, m, Some(ABCABC)).value;
    CorrectedRestores(d, b, m, ABCABC, good);
  }
}
