/** The per-entry JSON object the decoder dumps (`serialize_entries`) and
    the encoder reads back (`PakBuilder.add_dir` / `add_file`), and the
    POSIX path text that travels in its "path" field. Names stay raw bytes:
    the Shift-JIS and cp932 codecs are not modelled. */
module Meta {
  import opened Wrappers
  import opened Bytes

  const SLASH: byte := 0x2F
  const DOT: byte := 0x2E

  /** A path as its list of components. */
  type Path = seq<Bytes>

  /** The JSON "type" field; the encoder skips any other value. */
  datatype Kind = DirKind | FileKind | OtherKind

  /** One entry object of the dumped index; a key that is absent (or, for
      "time_hex", not a string) is None. */
  datatype Meta = Meta(
    kind: Kind,
    path: Bytes,
    childCount: Option<nat>,
    offset: Option<nat>,
    csize: Option<nat>,
    usize: Option<nat>,
    attributes: Option<nat>,
    timeHex: Option<string>)

  /** `str(path)` for a POSIX path: the components joined with "/", and "."
      for the empty path. */
  function JoinPath(p: Path): (s: Bytes)
    ensures |p| == 0 ==> s == [DOT]
    ensures |p| == 1 ==> s == p[0]
  {
    if |p| == 0 then [DOT] else JoinParts(p)
  }

  function JoinParts(p: Path): Bytes
    requires |p| > 0
  {
    if |p| == 1 then p[0] else p[0] + [SLASH] + JoinParts(p[1..])
  }

  /** Python's `s.split("/")`: the pieces between slashes, empty ones
      included. */
  function Split(s: Bytes): (parts: seq<Bytes>)
    ensures |parts| >= 1
    decreases |s|
  {
    if |s| == 0 then [[]]
    else
      var rest := Split(s[1..]);
      if s[0] == SLASH then [[]] + rest else [[s[0]] + rest[0]] + rest[1..]
  }

  /** The parts pathlib keeps: empty parts and "." are dropped. */
  function Significant(parts: seq<Bytes>): (kept: seq<Bytes>)
    ensures |kept| <= |parts|
    ensures forall k :: 0 <= k < |kept| ==> Component(kept[k])
  {
    if |parts| == 0 then []
    else (if Component(parts[0]) then [parts[0]] else []) + Significant(parts[1..])
  }

  /** A name pathlib keeps as a component of its own. */
  predicate Component(c: Bytes) {
    c != [] && c != [DOT] && SLASH !in c
  }

  /** `pathlib.PurePosixPath(s).name`: the last significant component, or
      empty when there is none. */
  function LastComponent(s: Bytes): (name: Bytes)
    ensures name == [] || Component(name)
  {
    var ps := Significant(Split(s));
    if |ps| == 0 then [] else ps[|ps| - 1]
  }

  /** Splitting joined components at the slashes gives the components back. */
  lemma {:induction false} SplitJoin(p: Path)
    requires |p| > 0
    requires forall k :: 0 <= k < |p| ==> SLASH !in p[k]
    ensures Split(JoinParts(p)) == p
    decreases |p|
  {
    if |p| == 1 {
      SplitPlain(p[0]);
    } else {
      SplitJoin(p[1..]);
      SplitPrefix(p[0], JoinParts(p[1..]));
    }
  }

  lemma {:induction false} SplitPlain(c: Bytes)
    requires SLASH !in c
    ensures Split(c) == [c]
    decreases |c|
  {
    if |c| > 0 {
      SplitPlain(c[1..]);
      assert [c[0]] + c[1..] == c;
    }
  }

  /** A slash-free piece before a slash becomes the first part. */
  lemma {:induction false} SplitPrefix(c: Bytes, t: Bytes)
    requires SLASH !in c
    ensures Split(c + [SLASH] + t) == [c] + Split(t)
    decreases |c|
  {
    var s := c + [SLASH] + t;
    if |c| == 0 {
      assert s[0] == SLASH && s[1..] == t;
    } else {
      assert s[0] == c[0] && s[1..] == c[1..] + [SLASH] + t;
      SplitPrefix(c[1..], t);
      assert [c[0]] + c[1..] == c;
    }
  }

  lemma {:induction false} SignificantAll(parts: seq<Bytes>)
    requires forall k :: 0 <= k < |parts| ==> Component(parts[k])
    ensures Significant(parts) == parts
    decreases |parts|
  {
    if |parts| > 0 {
      SignificantAll(parts[1..]);
      assert [parts[0]] + parts[1..] == parts;
    }
  }

  /** pathlib reads the printed text of a path of kept components back as
      the same components; "." reads back as the empty path. */
  lemma JoinPathParses(p: Path)
    requires forall k :: 0 <= k < |p| ==> Component(p[k])
    ensures Significant(Split(JoinPath(p))) == p
  {
    if |p| == 0 {
      SplitPlain([DOT]);
      assert [[DOT]][1..] == [];
    } else {
      SplitJoin(p);
      SignificantAll(p);
    }
  }

  /** The name the encoder takes from a dumped path is the entry's own
      name, provided every component is one pathlib keeps as it is. */
  lemma LastComponentJoin(p: Path)
    requires |p| > 0
    requires forall k :: 0 <= k < |p| ==> Component(p[k])
    ensures LastComponent(JoinPath(p)) == p[|p| - 1]
  {
    SplitJoin(p);
    SignificantAll(p);
  }
}
