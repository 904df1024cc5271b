/** The encoder (`compress.py`, class `PakBuilder`): entries are appended in
    the order of the dumped index while file payloads are appended to a data
    buffer, then the index is rebuilt and the container assembled. */
module Compress {
  import opened Wrappers
  import opened Bytes
  import opened IndexRecord
  import opened PakHeader
  import opened Deflate
  import opened Hex
  import opened Meta

  /** The "header" object of the dumped index; an absent key is None. */
  datatype HeaderInfo = HeaderInfo(
    headerOffset: Option<nat>,
    indexRel: Option<nat>,
    rootCount: Option<nat>,
    unknown1: Option<nat>,
    unknown2: Option<nat>)

  /** `dict.get(key, default)`. */
  function GetOr(o: Option<nat>, default: nat): nat {
    if o.Some? then o.value else default
  }

  /** An entry as the builder collects it, before `build_index` lays it out. */
  datatype IndexEntry =
    | DirEntry(name: Bytes, childCount: nat, attributes: nat, time: Bytes)
    | FileEntry(name: Bytes, attributes: nat, offset: nat, csize: nat, usize: nat, time: Bytes)

  datatype Builder = Builder(info: HeaderInfo, data: Bytes, entries: seq<IndexEntry>, cursor: nat)

  const DEFAULT_HEADER_OFFSET: nat := 16
  const DEFAULT_INDEX_REL: nat := 24
  const DEFAULT_DIR_ATTRIBUTES: nat := 0x10

  function ZeroTime(): (t: Time)
    ensures forall k :: 0 <= k < |t| ==> t[k] == 0
  {
    seq(TIME_SIZE, _ => 0)
  }

  /** Total compressed size of the file entries among es[..n]. */
  function Used(es: seq<IndexEntry>, n: nat): nat
    requires n <= |es|
  {
    if n == 0 then 0
    else Used(es, n - 1) + (if es[n - 1].FileEntry? then es[n - 1].csize else 0)
  }

  /** The builder's invariant: the cursor is the data length, and every
      file's offset is the total size of the files added before it, so
      consecutive files sit back to back and the sizes add up to the data
      length. */
  predicate Valid(b: Builder) {
    && b.cursor == |b.data|
    && Used(b.entries, |b.entries|) == |b.data|
    && forall k :: 0 <= k < |b.entries| && b.entries[k].FileEntry? ==> b.entries[k].offset == Used(b.entries, k)
  }

  /** Under the invariant every file's stored bytes lie inside the data,
      and a later file starts no earlier than an earlier file ends. */
  lemma ValidInside(b: Builder)
    requires Valid(b)
    ensures forall k :: 0 <= k < |b.entries| && b.entries[k].FileEntry? ==>
              b.entries[k].offset + b.entries[k].csize <= |b.data|
    ensures forall j, k :: 0 <= j < k < |b.entries| && b.entries[j].FileEntry? && b.entries[k].FileEntry? ==>
              b.entries[j].offset + b.entries[j].csize <= b.entries[k].offset
  {
    var es := b.entries;
    forall k | 0 <= k < |es| && es[k].FileEntry?
      ensures es[k].offset + es[k].csize <= |b.data|
    {
      UsedMono(es, k + 1, |es|);
    }
    forall j, k | 0 <= j < k < |es| && es[j].FileEntry? && es[k].FileEntry?
      ensures es[j].offset + es[j].csize <= es[k].offset
    {
      UsedMono(es, j + 1, k);
    }
  }

  /** The running total never decreases. */
  lemma {:induction false} UsedMono(es: seq<IndexEntry>, i: nat, j: nat)
    requires i <= j <= |es|
    ensures Used(es, i) <= Used(es, j)
    decreases j
  {
    if i < j {
      UsedMono(es, i, j - 1);
    }
  }

  /** Appending an entry leaves the totals over earlier entries alone. */
  lemma {:induction false} UsedAppend(es: seq<IndexEntry>, x: IndexEntry, n: nat)
    requires n <= |es|
    ensures Used(es + [x], n) == Used(es, n)
  {
    if n > 0 {
      assert (es + [x])[n - 1] == es[n - 1];
      UsedAppend(es, x, n - 1);
    }
  }

  /** `PakBuilder.__init__`. */
  function New(info: HeaderInfo): (b: Builder)
    ensures Valid(b)
    ensures b.info == info && b.data == [] && b.entries == [] && b.cursor == 0
  {
    Builder(info, [], [], 0)
  }

  /** The time field of a new entry: `bytes.fromhex` of "time_hex" when it
      is a string that parses, and 24 zero bytes otherwise. */
  function TimeField(timeHex: Option<string>): (t: Bytes)
    ensures timeHex.None? ==> t == ZeroTime()
    ensures timeHex.Some? && FromHex(timeHex.value).None? ==> t == ZeroTime()
    ensures timeHex.Some? && FromHex(timeHex.value).Some? ==> ToHex(t) == Canonical(timeHex.value)
  {
    match timeHex
    case None => ZeroTime()
    case Some(s) =>
      match FromHex(s)
      case None => ZeroTime()
      case Some(bytes) =>
        ToHexFromHex(s);
        bytes
  }

  /** The hex a dumped entry carries is read back as its time field. */
  lemma TimeFieldOfDump(t: Bytes)
    ensures TimeField(Some(ToHex(t))) == t
  {
    FromHexToHex(t);
  }

  /** `add_dir`: one directory entry named after the last path component,
      child count and attributes defaulting to 0 and 0x10; the data and the
      cursor are untouched. */
  function AddDir(b: Builder, m: Meta): (b': Builder)
    requires Valid(b)
    ensures Valid(b')
    ensures b'.info == b.info && b'.data == b.data && b'.cursor == b.cursor
    ensures |b'.entries| == |b.entries| + 1 && b'.entries[..|b.entries|] == b.entries
    ensures b'.entries[|b.entries|]
            == DirEntry(LastComponent(m.path), GetOr(m.childCount, 0),
                        GetOr(m.attributes, DEFAULT_DIR_ATTRIBUTES), TimeField(m.timeHex))
  {
    var e := DirEntry(LastComponent(m.path), GetOr(m.childCount, 0),
                      GetOr(m.attributes, DEFAULT_DIR_ATTRIBUTES), TimeField(m.timeHex));
    AppendKeepsValid(b, e, []);
    Builder(b.info, b.data, b.entries + [e], b.cursor)
  }

  /** What the builder stores for a file: the deflated bytes, except when
      they are exactly as long as the raw bytes, in which case the raw bytes
      themselves, because the decoder reads a file whose two sizes agree as
      stored uncompressed. */
  function Stored(d: Codec, raw: Bytes): (s: Bytes)
    ensures |s| == |raw| ==> s == raw
    ensures |s| != |raw| ==> s == d.compress(raw)
  {
    var packed := d.compress(raw);
    if |packed| == |raw| then raw else packed
  }

  /** `add_file` with the storage rule above. The file's bytes are an
      argument (None when the source file is missing); its entry records the
      cursor as offset, and the data and cursor grow by the stored bytes. */
  function AddFile(d: Codec, b: Builder, m: Meta, content: Option<Bytes>): (r: Result<Builder>)
    requires Valid(b)
    ensures content.None? <==> r == Failure(SourceNotFound)
    ensures r.Success? ==> var b' := r.value; var raw := content.value;
            && Valid(b')
            && b'.info == b.info
            && b'.data == b.data + Stored(d, raw)
            && b'.cursor == b.cursor + |Stored(d, raw)|
            && |b'.entries| == |b.entries| + 1 && b'.entries[..|b.entries|] == b.entries
            && b'.entries[|b.entries|]
               == FileEntry(LastComponent(m.path), GetOr(m.attributes, 0), b.cursor,
                            |Stored(d, raw)|, |raw|, TimeField(m.timeHex))
  {
    match content
    case None => Failure(SourceNotFound)
    case Some(raw) =>
      var stored := Stored(d, raw);
      var e := FileEntry(LastComponent(m.path), GetOr(m.attributes, 0), b.cursor,
                         |stored|, |raw|, TimeField(m.timeHex));
      AppendKeepsValid(b, e, stored);
      Success(Builder(b.info, b.data + stored, b.entries + [e], b.cursor + |stored|))
  }

  /** `add_file` exactly as written: the deflated bytes are always stored. */
  function AddFileAsWritten(d: Codec, b: Builder, m: Meta, content: Option<Bytes>): (r: Result<Builder>)
    requires Valid(b)
    ensures content.None? <==> r == Failure(SourceNotFound)
    ensures r.Success? ==> var b' := r.value; var packed := d.compress(content.value);
            && Valid(b')
            && b'.info == b.info
            && b'.data == b.data + packed
            && |b'.entries| == |b.entries| + 1 && b'.entries[..|b.entries|] == b.entries
            && b'.entries[|b.entries|]
               == FileEntry(LastComponent(m.path), GetOr(m.attributes, 0), b.cursor,
                            |packed|, |content.value|, TimeField(m.timeHex))
  {
    match content
    case None => Failure(SourceNotFound)
    case Some(raw) =>
      var packed := d.compress(raw);
      var e := FileEntry(LastComponent(m.path), GetOr(m.attributes, 0), b.cursor,
                         |packed|, |raw|, TimeField(m.timeHex));
      AppendKeepsValid(b, e, packed);
      Success(Builder(b.info, b.data + packed, b.entries + [e], b.cursor + |packed|))
  }

  /** Appending an entry together with its bytes keeps the invariant, when
      a file entry's offset is the cursor and its size is the bytes'
      length, and a directory brings no bytes. */
  lemma AppendKeepsValid(b: Builder, e: IndexEntry, bytes: Bytes)
    requires Valid(b)
    requires e.DirEntry? ==> bytes == []
    requires e.FileEntry? ==> e.offset == b.cursor && e.csize == |bytes|
    ensures Valid(Builder(b.info, b.data + bytes, b.entries + [e], b.cursor + |bytes|))
  {
    var es := b.entries + [e];
    var n := |b.entries|;
    UsedAppend(b.entries, e, n);
    assert es[n] == e;
    forall k | 0 <= k < |es| && es[k].FileEntry?
      ensures es[k].offset == Used(es, k)
    {
      if k < n {
        UsedAppend(b.entries, e, k);
        assert es[k] == b.entries[k];
      }
    }
  }

  // ---------------------------------------------------------------------
  // The driver loop of `main`

  /** One object of the dumped entry list, with the bytes of its source
      file when it names one that exists. */
  datatype Input = Input(meta: Meta, content: Option<Bytes>)

  /** A file item whose source file is missing. */
  predicate Missing(it: Input) {
    it.meta.kind == FileKind && it.content.None?
  }

  /** The entry the loop records for a kept item: a directory from its
      dumped fields, a file from its name, attributes and time and the
      sizes of its bytes. A file's offset is fixed by `Valid`: the sizes of
      the files before it, added up. */
  predicate Made(d: Codec, it: Input, x: IndexEntry) {
    && (it.meta.kind == DirKind ==>
          x == DirEntry(LastComponent(it.meta.path), GetOr(it.meta.childCount, 0),
                        GetOr(it.meta.attributes, DEFAULT_DIR_ATTRIBUTES), TimeField(it.meta.timeHex)))
    && (it.meta.kind == FileKind ==>
          && it.content.Some? && x.FileEntry?
          && x.name == LastComponent(it.meta.path) && x.attributes == GetOr(it.meta.attributes, 0)
          && x.csize == |Stored(d, it.content.value)| && x.usize == |it.content.value|
          && x.time == TimeField(it.meta.timeHex))
  }

  /** The loop in `main`: directories and files are added in order, any
      other type is skipped, and a missing source file ends the run. */
  function Pack(d: Codec, b: Builder, items: seq<Input>): (r: Result<Builder>)
    requires Valid(b)
    ensures r.Success? ==> Valid(r.value) && r.value.info == b.info
    ensures r.Success? ==> |r.value.entries| == |b.entries| + |Kept(items)|
    decreases |items|
  {
    if |items| == 0 then Success(b)
    else
      var it := items[0];
      match it.meta.kind
      case OtherKind => Pack(d, b, items[1..])
      case DirKind => Pack(d, AddDir(b, it.meta), items[1..])
      case FileKind =>
        var b' :- AddFile(d, b, it.meta, it.content);
        Pack(d, b', items[1..])
  }

  /** The run fails exactly when some file item's source is missing, and
      then with that error. */
  lemma {:induction false} PackFails(d: Codec, b: Builder, items: seq<Input>, r: Result<Builder>)
    requires Valid(b) && r == Pack(d, b, items)
    ensures r.Failure? <==> exists k :: 0 <= k < |items| && Missing(items[k])
    ensures r.Failure? ==> r.error == SourceNotFound
    decreases |items|
  {
    if |items| > 0 {
      var it := items[0];
      MissingCons(items);
      match it.meta.kind
      case OtherKind => PackFails(d, b, items[1..], r);
      case DirKind => PackFails(d, AddDir(b, it.meta), items[1..], r);
      case FileKind =>
        var a := AddFile(d, b, it.meta, it.content);
        if a.Success? {
          PackFails(d, a.value, items[1..], r);
        }
    }
  }

  /** `out` keeps `es` in front, followed by the entries made from `kept`,
      one each, in order. */
  predicate Extends(d: Codec, es: seq<IndexEntry>, kept: seq<Input>, out: seq<IndexEntry>) {
    && |out| == |es| + |kept| && out[..|es|] == es
    && forall k :: 0 <= k < |kept| ==> Made(d, kept[k], out[|es| + k])
  }

  /** On success the entries collected before stay in front, and the k-th
      kept item has become the k-th new entry. */
  lemma {:induction false} PackMade(d: Codec, b: Builder, items: seq<Input>, r: Result<Builder>)
    requires Valid(b) && r == Pack(d, b, items)
    ensures r.Success? ==> Extends(d, b.entries, Kept(items), r.value.entries)
    decreases |items|
  {
    if |items| == 0 {
      assert r == Success(b);
    } else if r.Success? {
      var it := items[0];
      match it.meta.kind
      case OtherKind =>
        KeptSkip(items);
        PackMade(d, b, items[1..], r);
      case DirKind =>
        var b1 := AddDir(b, it.meta);
        assert r == Pack(d, b1, items[1..]);
        PackMade(d, b1, items[1..], r);
        PackStep(d, b.entries, b1.entries, items, r.value.entries);
      case FileKind =>
        var a := AddFile(d, b, it.meta, it.content);
        assert a.Success? && r == Pack(d, a.value, items[1..]);
        PackMade(d, a.value, items[1..], r);
        PackStep(d, b.entries, a.value.entries, items, r.value.entries);
    }
  }

  /** A kept item's entry in front of the entries the rest of the loop
      made. */
  lemma PackStep(d: Codec, es0: seq<IndexEntry>, es1: seq<IndexEntry>, items: seq<Input>, out: seq<IndexEntry>)
    requires |items| > 0 && items[0].meta.kind != OtherKind
    requires |es1| == |es0| + 1 && es1[..|es0|] == es0 && Made(d, items[0], es1[|es0|])
    requires Extends(d, es1, Kept(items[1..]), out)
    ensures Extends(d, es0, Kept(items), out)
  {
    var kept := Kept(items);
    KeptTake(items);
    assert kept[0] == items[0] && kept[1..] == Kept(items[1..]);
    MadeCons(d, es0, es1, kept, out);
  }

  lemma MissingCons(items: seq<Input>)
    requires |items| > 0
    ensures (exists k :: 0 <= k < |items| && Missing(items[k]))
            <==> Missing(items[0]) || exists k :: 0 <= k < |items[1..]| && Missing(items[1..][k])
  {
    if exists k :: 0 <= k < |items| && Missing(items[k]) {
      var k :| 0 <= k < |items| && Missing(items[k]);
      if k > 0 {
        assert Missing(items[1..][k - 1]);
      }
    }
    if exists k :: 0 <= k < |items[1..]| && Missing(items[1..][k]) {
      var k :| 0 <= k < |items[1..]| && Missing(items[1..][k]);
      assert Missing(items[k + 1]);
    }
  }

  /** One more entry in front of the entries the rest of the loop made. */
  lemma MadeCons(d: Codec, es0: seq<IndexEntry>, es1: seq<IndexEntry>, kept: seq<Input>, out: seq<IndexEntry>)
    requires |kept| > 0 && |es1| == |es0| + 1 && es1[..|es0|] == es0 && Made(d, kept[0], es1[|es0|])
    requires |out| == |es1| + |kept| - 1 && out[..|es1|] == es1
    requires forall k :: 0 <= k < |kept| - 1 ==> Made(d, kept[1..][k], out[|es1| + k])
    ensures out[..|es0|] == es0
    ensures forall k :: 0 <= k < |kept| ==> Made(d, kept[k], out[|es0| + k])
  {
    forall k | 0 <= k < |kept|
      ensures Made(d, kept[k], out[|es0| + k])
    {
      if k == 0 {
        assert out[|es0|] == es1[|es0|];
      } else {
        var j := k - 1;
        assert Made(d, kept[1..][j], out[|es1| + j]);
        assert kept[1..][j] == kept[k] && |es1| + j == |es0| + k;
      }
    }
  }

  /** The items that become entries: every directory and file item, in
      order. */
  function Kept(items: seq<Input>): (kept: seq<Input>)
    ensures |kept| <= |items|
    ensures forall k :: 0 <= k < |kept| ==> kept[k].meta.kind != OtherKind
  {
    if |items| == 0 then []
    else (if items[0].meta.kind == OtherKind then [] else [items[0]]) + Kept(items[1..])
  }

  lemma KeptSkip(items: seq<Input>)
    requires |items| > 0 && items[0].meta.kind == OtherKind
    ensures Kept(items) == Kept(items[1..])
  {
  }

  lemma KeptTake(items: seq<Input>)
    requires |items| > 0 && items[0].meta.kind != OtherKind
    ensures Kept(items) == [items[0]] + Kept(items[1..])
  {
  }

  /** A single item is kept exactly when it is a directory or a file. */
  lemma KeptOne(it: Input)
    ensures Kept([it]) == if it.meta.kind == OtherKind then [] else [it]
  {
    assert [it][1..] == [];
  }

  /** Filtering a concatenation filters each part: nothing is dropped,
      added or reordered. */
  lemma {:induction false} KeptAppend(a: seq<Input>, b: seq<Input>)
    ensures Kept(a + b) == Kept(a) + Kept(b)
    decreases |a|
  {
    if |a| == 0 {
      assert a + b == b;
    } else {
      assert (a + b)[0] == a[0];
      assert (a + b)[1..] == a[1..] + b;
      KeptAppend(a[1..], b);
      var head := if a[0].meta.kind == OtherKind then [] else [a[0]];
      assert head + (Kept(a[1..]) + Kept(b)) == (head + Kept(a[1..])) + Kept(b);
    }
  }

  // ---------------------------------------------------------------------
  // build_index and save

  /** Python's `t.ljust(24, b"\x00")[:24]`. */
  function Pad24(t: Bytes): (r: Time)
    ensures |t| >= TIME_SIZE ==> r == t[..TIME_SIZE]
    ensures |t| < TIME_SIZE ==> r[..|t|] == t && forall k :: |t| <= k < TIME_SIZE ==> r[k] == 0
  {
    if |t| >= TIME_SIZE then t[..TIME_SIZE] else t + seq(TIME_SIZE - |t|, _ => 0)
  }

  /** The values of an entry fit the fields `struct.pack` writes them into
      (it raises otherwise). */
  predicate Fits(e: IndexEntry) {
    && e.attributes < U32_LIMIT
    && (e.DirEntry? ==> e.childCount < U64_LIMIT)
    && (e.FileEntry? ==> e.offset < U64_LIMIT && e.csize < U64_LIMIT && e.usize < U64_LIMIT)
  }

  predicate AllFit(es: seq<IndexEntry>) {
    forall k :: 0 <= k < |es| ==> Fits(es[k])
  }

  /** The record `build_index` writes for an entry: a directory has offset
      and compressed size 0 and its child count in the size field. */
  function ToRecord(e: IndexEntry): (r: Record)
    requires Fits(e)
    ensures r.name == e.name && r.flags == e.attributes && r.time == Pad24(e.time)
    ensures e.DirEntry? ==> r.offset == 0 && r.csize == 0 && r.usize == e.childCount
    ensures e.FileEntry? ==> r.offset == e.offset && r.csize == e.csize && r.usize == e.usize
  {
    match e
    case DirEntry(name, cc, attrs, time) => Record(0, cc, 0, attrs, Pad24(time), name)
    case FileEntry(name, attrs, off, cs, us, time) => Record(off, us, cs, attrs, Pad24(time), name)
  }

  function ToRecords(es: seq<IndexEntry>): (rs: seq<Record>)
    requires AllFit(es)
    ensures |rs| == |es|
    ensures forall k :: 0 <= k < |es| ==> rs[k] == ToRecord(es[k])
  {
    seq(|es|, k requires 0 <= k < |es| => ToRecord(es[k]))
  }

  /** `build_index`: every entry's record, in insertion order. */
  function BuildIndex(b: Builder): (idx: Bytes)
    requires AllFit(b.entries)
    ensures |idx| >= (FIXED_SIZE + 1) * |b.entries|
    ensures |idx| == 0 <==> |b.entries| == 0
  {
    var rs := ToRecords(b.entries);
    EncodeAllLength(rs);
    assert |rs| == 0 ==> rs == [];
    EncodeAll(rs)
  }

  /** The header values `save` writes, with their defaults. */
  function HeaderOffset(b: Builder): nat { GetOr(b.info.headerOffset, DEFAULT_HEADER_OFFSET) }
  function IndexRel(b: Builder): nat { GetOr(b.info.indexRel, DEFAULT_INDEX_REL) }
  function RootCount(b: Builder): nat { GetOr(b.info.rootCount, 0) }
  function Unknown1(b: Builder): nat { GetOr(b.info.unknown1, 0) }
  function Unknown2(b: Builder): nat { GetOr(b.info.unknown2, 0) }

  /** Everything `save` packs into a u32 fits one. */
  predicate Savable(d: Codec, b: Builder) {
    && AllFit(b.entries)
    && HeaderOffset(b) < U32_LIMIT && IndexRel(b) < U32_LIMIT && RootCount(b) < U32_LIMIT
    && Unknown1(b) < U32_LIMIT && Unknown2(b) < U32_LIMIT
    && |BuildIndex(b)| < U32_LIMIT && |d.compress(BuildIndex(b))| < U32_LIMIT
  }

  /** `save` without the file write: global header, extended header,
      deflated index, data. The extended header always follows the global
      one and the index always follows it, whatever offsets the header
      fields announce. */
  function Save(d: Codec, b: Builder): (pak: Bytes)
    requires Savable(d, b)
    ensures var cidx := d.compress(BuildIndex(b));
            && |pak| == GLOBAL_SIZE + EXT_SIZE + |cidx| + |b.data|
            && pak == GlobalHeaderBytes(HeaderOffset(b))
                      + ExtHeaderBytes(IndexRel(b), Unknown1(b), RootCount(b), |BuildIndex(b)|, |cidx|, Unknown2(b))
                      + (cidx + b.data)
    ensures var cidx := d.compress(BuildIndex(b));
            && pak[GLOBAL_SIZE + EXT_SIZE .. GLOBAL_SIZE + EXT_SIZE + |cidx|] == cidx
            && pak[GLOBAL_SIZE + EXT_SIZE + |cidx| ..] == b.data
  {
    var idx := BuildIndex(b);
    var cidx := d.compress(idx);
    var headers := GlobalHeaderBytes(HeaderOffset(b))
      + ExtHeaderBytes(IndexRel(b), Unknown1(b), RootCount(b), |idx|, |cidx|, Unknown2(b));
    ConcatParts(headers, cidx, b.data);
    headers + (cidx + b.data)
  }
}
