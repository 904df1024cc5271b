/** What the encoder writes, the decoder reads back: the headers, the index
    and every file's bytes. */
module RoundTrip {
  import opened Wrappers
  import opened Bytes
  import opened IndexRecord
  import opened Forest
  import opened PakHeader
  import opened Deflate
  import opened Meta
  import opened Depress
  import opened Compress

  /** The header of a saved container with the default header offset 16
      and index offset 24 is found at byte 16, its index at byte 40 and its
      data right after the deflated index, provided the index is not empty
      and the codec never deflates to nothing. */
  lemma SaveHeader(d: Codec, b: Builder)
    requires Savable(d, b) && NeverEmpty(d)
    requires HeaderOffset(b) == DEFAULT_HEADER_OFFSET && IndexRel(b) == DEFAULT_INDEX_REL
    requires |b.entries| > 0
    ensures var idx := BuildIndex(b);
            var cidx := d.compress(idx);
            ReadHeader(Save(d, b))
              == Success(Header(16, 24, RootCount(b), |idx|, |cidx|, 40, 40 + |cidx|, Unknown1(b), Unknown2(b)))
  {
    var idx := BuildIndex(b);
    var cidx := d.compress(idx);
    var pak := Save(d, b);
    var h := Header(16, 24, RootCount(b), |idx|, |cidx|, 40, 40 + |cidx|, Unknown1(b), Unknown2(b));
    assert |pak| == 40 + |cidx| + |b.data| && pak[..4] == MAGIC && RawHeaderField(pak) == 16
           && ExtHeaderAt(pak, 16) == h by {
      ReadBackHeaders(pak, 24, Unknown1(b), RootCount(b), |idx|, |cidx|, Unknown2(b), cidx + b.data);
    }
    assert |idx| > 0 && |cidx| > 0;
    ReadHeaderAt(pak, 16);
  }

  /** An empty entry list is saved with index size 0, which the decoder
      rejects. */
  lemma SaveEmptyRejected(d: Codec, b: Builder)
    requires Savable(d, b)
    requires HeaderOffset(b) == DEFAULT_HEADER_OFFSET
    requires |b.entries| == 0
    ensures ReadHeader(Save(d, b)) == Failure(NoValidExtHeader)
  {
    var idx := BuildIndex(b);
    var cidx := d.compress(idx);
    var pak := Save(d, b);
    assert |pak| >= 16 && pak[..4] == MAGIC && RawHeaderField(pak) == 16
           && ExtHeaderAt(pak, 16).indexUncompressed == 0 by {
      ReadBackHeaders(pak, IndexRel(b), Unknown1(b), RootCount(b), |idx|, |cidx|, Unknown2(b), cidx + b.data);
    }
    ReadHeaderNone(pak, 16);
  }

  // ---------------------------------------------------------------------
  // The index

  /** Names hold no zero byte (the cp932 name codec is not modelled). */
  predicate NamesOk(es: seq<IndexEntry>) {
    forall k :: 0 <= k < |es| ==> 0 !in es[k].name
  }

  /** Bit 0x10 of the attributes is set on directories and only there. */
  predicate KindsMarked(es: seq<IndexEntry>) {
    forall k :: 0 <= k < |es| ==> (IsDirFlags(es[k].attributes) <==> es[k].DirEntry?)
  }

  function EntryArity(x: IndexEntry): nat {
    if x.DirEntry? then x.childCount else 0
  }

  function EntryArities(es: seq<IndexEntry>): (ar: seq<nat>)
    ensures |ar| == |es|
    ensures forall k :: 0 <= k < |es| ==> ar[k] == EntryArity(es[k])
  {
    seq(|es|, k requires 0 <= k < |es| => EntryArity(es[k]))
  }

  /** The child counts describe `root_count` trees covering every entry,
      as they do for an entry list the decoder dumped. */
  predicate Shaped(b: Builder) {
    Trees(EntryArities(b.entries), 0, RootCount(b)) == Some(|b.entries|)
  }

  /** The decoder's entry carries back what the builder collected: the
      kind, the name as last path component, attributes, the padded time,
      a directory's child count and a file's offset and sizes. */
  predicate Restores(x: IndexEntry, e: Entry) {
    && |e.path| > 0 && e.path[|e.path| - 1] == x.name
    && e.attributes == x.attributes && e.time == Pad24(x.time)
    && (x.DirEntry? <==> e.Dir?)
    && (x.DirEntry? ==> e.childCount == x.childCount)
    && (x.FileEntry? ==> e.offset == x.offset && e.csize == x.csize && e.usize == x.usize)
  }

  lemma RecordsOf(es: seq<IndexEntry>)
    requires AllFit(es) && NamesOk(es) && KindsMarked(es)
    ensures AllWellFormed(ToRecords(es))
    ensures RecordArities(ToRecords(es)) == EntryArities(es)
  {
  }

  lemma ReadsRestore(xs: seq<IndexEntry>, es: seq<Entry>)
    requires AllFit(xs) && KindsMarked(xs)
    requires Reads(ToRecords(xs), es)
    ensures |es| == |xs|
    ensures forall k :: 0 <= k < |xs| ==> Restores(xs[k], es[k])
  {
    var rs := ToRecords(xs);
    forall k | 0 <= k < |xs|
      ensures Restores(xs[k], es[k])
    {
      assert rs[k] == ToRecord(xs[k]);
    }
  }

  /** The index round trip: loading a saved container finds the headers
      where `save` put them and parses back one entry per collected entry,
      each restoring what was collected. */
  lemma IndexRoundTrip(d: Codec, b: Builder) returns (es: seq<Entry>)
    requires Lossless(d) && NeverEmpty(d)
    requires Savable(d, b)
    requires HeaderOffset(b) == DEFAULT_HEADER_OFFSET && IndexRel(b) == DEFAULT_INDEX_REL
    requires |b.entries| > 0
    requires NamesOk(b.entries) && KindsMarked(b.entries) && Shaped(b)
    ensures var idx := BuildIndex(b);
            var cidx := d.compress(idx);
            LoadIndex(d, Save(d, b))
              == Success((Header(16, 24, RootCount(b), |idx|, |cidx|, 40, 40 + |cidx|, Unknown1(b), Unknown2(b)), es))
    ensures |es| == |b.entries|
    ensures forall k :: 0 <= k < |b.entries| ==> Restores(b.entries[k], es[k])
  {
    var idx := BuildIndex(b);
    var cidx := d.compress(idx);
    var pak := Save(d, b);
    SaveHeader(d, b);
    var h := ReadHeader(pak).value;
    assert IndexBlob(pak, h) == cidx;
    assert d.decompress(cidx) == Some(idx);
    var rs := ToRecords(b.entries);
    RecordsOf(b.entries);
    es := ParseEncodeAll(rs, RootCount(b));
    ReadsRestore(b.entries, es);
  }

  // ---------------------------------------------------------------------
  // File contents

  /** Where every file's bytes are: contents[k] is what was read for entry
      k (None for a directory), and a file's slice of the data holds what
      the builder stores for those bytes. */
  ghost predicate Layout(d: Codec, b: Builder, contents: seq<Option<Bytes>>) {
    && |contents| == |b.entries|
    && forall k :: 0 <= k < |b.entries| && b.entries[k].FileEntry? ==>
         && contents[k].Some?
         && b.entries[k].usize == |contents[k].value|
         && b.entries[k].offset + b.entries[k].csize <= |b.data|
         && b.data[b.entries[k].offset .. b.entries[k].offset + b.entries[k].csize] == Stored(d, contents[k].value)
  }

  lemma LayoutNew(d: Codec, info: HeaderInfo)
    ensures Layout(d, New(info), [])
  {
  }

  lemma LayoutDir(d: Codec, b: Builder, contents: seq<Option<Bytes>>, m: Meta, c: Option<Bytes>)
    requires Valid(b) && Layout(d, b, contents)
    ensures Layout(d, AddDir(b, m), contents + [c])
  {
    var b' := AddDir(b, m);
    var n := |b.entries|;
    assert b'.entries[n].DirEntry?;
    forall k | 0 <= k < n
      ensures b'.entries[k] == b.entries[k] && (contents + [c])[k] == contents[k]
    {
      assert b'.entries[..n][k] == b.entries[k];
    }
  }

  lemma LayoutFile(d: Codec, b: Builder, contents: seq<Option<Bytes>>, m: Meta, c: Option<Bytes>, b': Builder)
    requires Valid(b) && Layout(d, b, contents)
    requires AddFile(d, b, m, c) == Success(b')
    ensures Layout(d, b', contents + [c])
  {
    var n := |b.entries|;
    var raw := c.value;
    var stored := Stored(d, raw);
    var cs := contents + [c];
    var e := b'.entries[n];
    assert b'.data == b.data + stored && |b'.entries| == n + 1;
    assert e.offset == |b.data| && e.csize == |stored| && e.usize == |raw| && cs[n] == c;
    forall k | 0 <= k < |b'.entries| && b'.entries[k].FileEntry?
      ensures cs[k].Some? && b'.entries[k].usize == |cs[k].value|
      ensures b'.entries[k].offset + b'.entries[k].csize <= |b'.data|
      ensures b'.data[b'.entries[k].offset .. b'.entries[k].offset + b'.entries[k].csize] == Stored(d, cs[k].value)
    {
      if k < n {
        assert b'.entries[..n][k] == b.entries[k];
        var x := b.entries[k];
        assert cs[k] == contents[k];
        SliceOfPrefix(b.data, stored, x.offset, x.offset + x.csize);
      } else {
        SliceOfTail(b.data, stored);
      }
    }
  }

  lemma SliceOfTail(a: Bytes, t: Bytes)
    ensures (a + t)[|a|..|a| + |t|] == t
  {
  }

  lemma SliceOfPrefix(a: Bytes, t: Bytes, i: nat, j: nat)
    requires i <= j <= |a|
    ensures (a + t)[i..j] == a[i..j]
  {
  }

  /** The source bytes of the kept items, in order. */
  function Contents(items: seq<Input>): (cs: seq<Option<Bytes>>)
    ensures |cs| == |items|
    ensures forall k :: 0 <= k < |items| ==> cs[k] == items[k].content
  {
    if |items| == 0 then [] else [items[0].content] + Contents(items[1..])
  }

  /** Each turn of the driver loop keeps every file's bytes where its
      entry says they are. */
  lemma {:induction false} PackLayout(d: Codec, b: Builder, contents: seq<Option<Bytes>>, items: seq<Input>, b': Builder)
    requires Valid(b) && Layout(d, b, contents)
    requires Pack(d, b, items) == Success(b')
    ensures Layout(d, b', contents + Contents(Kept(items)))
    decreases |items|
  {
    if |items| > 0 {
      var b1, cs1 := PackStep(d, b, contents, items, b');
      PackLayout(d, b1, cs1, items[1..], b');
    }
  }

  /** One turn of the driver loop. */
  lemma PackStep(d: Codec, b: Builder, contents: seq<Option<Bytes>>, items: seq<Input>, b': Builder)
    returns (b1: Builder, cs1: seq<Option<Bytes>>)
    requires |items| > 0
    requires Valid(b) && Layout(d, b, contents)
    requires Pack(d, b, items) == Success(b')
    ensures Valid(b1) && Layout(d, b1, cs1)
    ensures Pack(d, b1, items[1..]) == Success(b')
    ensures cs1 + Contents(Kept(items[1..])) == contents + Contents(Kept(items))
  {
    var it := items[0];
    match it.meta.kind
    case OtherKind =>
      b1, cs1 := b, contents;
      KeptCons(items);
    case DirKind =>
      b1, cs1 := AddDir(b, it.meta), contents + [it.content];
      LayoutDir(d, b, contents, it.meta, it.content);
      ContentsKeep(contents, items);
    case FileKind =>
      b1, cs1 := AddFile(d, b, it.meta, it.content).value, contents + [it.content];
      LayoutFile(d, b, contents, it.meta, it.content, b1);
      ContentsKeep(contents, items);
  }

  lemma {:induction false} ContentsKeep(contents: seq<Option<Bytes>>, items: seq<Input>)
    requires |items| > 0 && items[0].meta.kind != OtherKind
    ensures contents + [items[0].content] + Contents(Kept(items[1..]))
            == contents + Contents(Kept(items))
  {
    var later := Contents(Kept(items[1..]));
    KeptCons(items);
    assert contents + [items[0].content] + later == contents + ([items[0].content] + later);
  }

  lemma {:induction false} KeptCons(items: seq<Input>)
    requires |items| > 0
    ensures items[0].meta.kind == OtherKind ==> Contents(Kept(items)) == Contents(Kept(items[1..]))
    ensures items[0].meta.kind != OtherKind ==>
              Contents(Kept(items)) == [items[0].content] + Contents(Kept(items[1..]))
  {
    var rest := Kept(items[1..]);
    if items[0].meta.kind != OtherKind {
      assert Kept(items) == [items[0]] + rest;
      assert Kept(items)[1..] == rest;
    }
  }

  /** The corrected storage rule reads back: whatever the decoder's
      pass-through-or-inflate choice, it returns the original bytes. */
  lemma ExtractStored(d: Codec, pak: Bytes, e: Entry, base: nat, raw: Bytes)
    requires Lossless(d)
    requires e.File? && e.usize == |raw| && e.csize == |Stored(d, raw)|
    requires base + e.offset + e.csize <= |pak|
    requires pak[base + e.offset .. base + e.offset + e.csize] == Stored(d, raw)
    ensures ExtractFile(d, pak, e, base) == Success(raw)
  {
  }

  lemma SliceOfSuffix(s: Bytes, base: nat, i: nat, j: nat)
    requires base <= |s| && i <= j <= |s| - base
    ensures s[base..][i..j] == s[base + i..base + j]
  {
  }

  /** The whole round trip: running the loop (with the corrected store
      rule) over any items, saving, loading the index back and extracting
      each file restores the builder's entries and gives every file item's
      bytes back, provided the codec is lossless and the saved values
      satisfy what the decoder relies on. */
  lemma PackRoundTrip(d: Codec, info: HeaderInfo, items: seq<Input>, b: Builder) returns (es: seq<Entry>)
    requires Lossless(d) && NeverEmpty(d)
    requires Pack(d, New(info), items) == Success(b)
    requires Savable(d, b)
    requires HeaderOffset(b) == DEFAULT_HEADER_OFFSET && IndexRel(b) == DEFAULT_INDEX_REL
    requires |b.entries| > 0
    requires NamesOk(b.entries) && KindsMarked(b.entries) && Shaped(b)
    ensures var cidx := d.compress(BuildIndex(b));
            && LoadIndex(d, Save(d, b)).Success?
            && LoadIndex(d, Save(d, b)).value.1 == es
            && LoadIndex(d, Save(d, b)).value.0.dataOffset == GLOBAL_SIZE + EXT_SIZE + |cidx|
    ensures |es| == |Kept(items)| == |b.entries|
    ensures forall k :: 0 <= k < |es| ==> Restores(b.entries[k], es[k])
    ensures forall k :: 0 <= k < |es| && es[k].File? ==>
              && Kept(items)[k].content.Some?
              && ExtractFile(d, Save(d, b), es[k], GLOBAL_SIZE + EXT_SIZE + |d.compress(BuildIndex(b))|)
                 == Success(Kept(items)[k].content.value)
  {
    es := IndexRoundTrip(d, b);
    LayoutNew(d, info);
    PackLayout(d, New(info), [], items, b);
    var contents := Contents(Kept(items));
    assert [] + contents == contents;
    forall k | 0 <= k < |es| && es[k].File?
      ensures && Kept(items)[k].content.Some?
              && ExtractFile(d, Save(d, b), es[k], GLOBAL_SIZE + EXT_SIZE + |d.compress(BuildIndex(b))|)
                 == Success(Kept(items)[k].content.value)
    {
      ExtractSaved(d, b, contents, es[k], k);
      assert contents[k] == Kept(items)[k].content;
    }
  }

  /** File k of a saved container is extracted to the bytes it was added
      with. */
  lemma ExtractSaved(d: Codec, b: Builder, contents: seq<Option<Bytes>>, e: Entry, k: nat)
    requires Lossless(d) && Savable(d, b) && Layout(d, b, contents)
    requires k < |b.entries| && Restores(b.entries[k], e) && e.File?
    ensures contents[k].Some?
    ensures ExtractFile(d, Save(d, b), e, GLOBAL_SIZE + EXT_SIZE + |d.compress(BuildIndex(b))|)
            == Success(contents[k].value)
  {
    var x := b.entries[k];
    assert x.FileEntry? && e.offset == x.offset && e.csize == x.csize && e.usize == x.usize;
    LayoutAt(d, b, contents, k);
    assert Save(d, b)[GLOBAL_SIZE + EXT_SIZE + |d.compress(BuildIndex(b))|..] == b.data;
    ExtractFromData(d, Save(d, b), GLOBAL_SIZE + EXT_SIZE + |d.compress(BuildIndex(b))|, b.data, e, contents[k].value);
  }

  lemma LayoutAt(d: Codec, b: Builder, contents: seq<Option<Bytes>>, k: nat)
    requires Layout(d, b, contents)
    requires k < |b.entries| && b.entries[k].FileEntry?
    ensures var x := b.entries[k];
            && contents[k].Some?
            && x.usize == |contents[k].value|
            && x.offset + x.csize <= |b.data|
            && b.data[x.offset .. x.offset + x.csize] == Stored(d, contents[k].value)
  {
  }

  /** A file whose stored bytes sit in the data area after `base` is
      extracted to its original bytes. */
  lemma ExtractFromData(d: Codec, pak: Bytes, base: nat, data: Bytes, e: Entry, raw: Bytes)
    requires Lossless(d) && e.File?
    requires base <= |pak| && pak[base..] == data
    requires e.usize == |raw| && e.offset + e.csize <= |data|
    requires data[e.offset .. e.offset + e.csize] == Stored(d, raw)
    ensures ExtractFile(d, pak, e, base) == Success(raw)
  {
    SliceThrough(pak, data, base, e.offset, e.offset + e.csize, Stored(d, raw));
    ExtractStored(d, pak, e, base, raw);
  }

  /** A slice of the part after `base` is the slice at the shifted place. */
  lemma SliceThrough(pak: Bytes, data: Bytes, base: nat, i: nat, j: nat, v: Bytes)
    requires base <= |pak| && pak[base..] == data
    requires i <= j <= |data| && data[i..j] == v
    ensures base + j <= |pak| && pak[base + i..base + j] == v
  {
    SliceOfSuffix(pak, base, i, j);
  }
}
