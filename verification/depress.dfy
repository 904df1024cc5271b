/** The decoder (`depress.py`): recursive parsing of the uncompressed
    index, the record-level reference walk it is proved equal to, file
    extraction, the index load in `main`, and `serialize_entries`. */
module Depress {
  import opened Wrappers
  import opened Bytes
  import opened IndexRecord
  import opened Forest
  import opened PakHeader
  import opened Deflate
  import opened Hex
  import opened Meta

  datatype Entry =
    | Dir(path: Path, childCount: nat, attributes: nat, time: Bytes)
    | File(path: Path, offset: nat, csize: nat, usize: nat, attributes: nat, time: Bytes)

  /** The entry a record becomes: a directory exactly when `flags & 0x10`,
      whose child count is the usize field; otherwise a file carrying the
      record's fields unchanged. */
  function Classify(r: Record, path: Path): (e: Entry)
    ensures e.path == path
    ensures e.Dir? <==> IsDirFlags(r.flags)
    ensures e.Dir? ==> e == Dir(path, r.usize, r.flags, r.time)
    ensures e.File? ==> e == File(path, r.offset, r.csize, r.usize, r.flags, r.time)
  {
    if IsDirFlags(r.flags) then Dir(path, r.usize, r.flags, r.time)
    else File(path, r.offset, r.csize, r.usize, r.flags, r.time)
  }

  /** Number of direct children that follow an entry in the flat list. */
  function Arity(e: Entry): nat {
    if e.Dir? then e.childCount else 0
  }

  function Arities(es: seq<Entry>): (ar: seq<nat>)
    ensures |ar| == |es|
    ensures forall k :: 0 <= k < |es| ==> ar[k] == Arity(es[k])
  {
    seq(|es|, k requires 0 <= k < |es| => Arity(es[k]))
  }

  function RecordArity(r: Record): nat {
    if IsDirFlags(r.flags) then r.usize else 0
  }

  function RecordArities(rs: seq<Record>): (ar: seq<nat>)
    ensures |ar| == |rs|
    ensures forall k :: 0 <= k < |rs| ==> ar[k] == RecordArity(rs[k])
  {
    seq(|rs|, k requires 0 <= k < |rs| => RecordArity(rs[k]))
  }

  // ---------------------------------------------------------------------
  // parse_entries

  /** `parse_entries(index_data, start, count, prefix)`: reads `count`
      entries from `start`; each directory is followed by its `childCount`
      direct children, parsed recursively under the directory's path. On
      success returns the position after the last entry read and the flat
      pre-order entry list. */
  function ParseEntries(buf: Bytes, start: nat, count: nat, prefix: Path): (r: Result<(nat, seq<Entry>)>)
    ensures count == 0 ==> r == Success((start, []))
    ensures r.Success? ==> start <= r.value.0
    ensures r.Success? && count > 0 ==> start + FIXED_SIZE + 1 <= r.value.0 <= |buf|
    decreases |buf| - start
  {
    if count == 0 then Success((start, []))
    else
      match DecodeRecord(buf, start)
      case Failure(err) => Failure(err)
      case Success((rec, pos1)) =>
        var e := Classify(rec, prefix + [rec.name]);
        match ParseEntries(buf, pos1, Arity(e), e.path)
        case Failure(err) => Failure(err)
        case Success((pos2, kids)) =>
          match ParseEntries(buf, pos2, count - 1, prefix)
          case Failure(err) => Failure(err)
          case Success((pos3, rest)) => Success((pos3, [e] + kids + rest))
  }


  /** A failed parse reports the first record that could not be read: the
      index ran out before a fixed header, or a name had no terminator. */
  lemma {:induction false} ParseErrors(buf: Bytes, start: nat, count: nat, prefix: Path)
    ensures var r := ParseEntries(buf, start, count, prefix);
            r.Failure? ==> r.error == IndexEntryTruncated || r.error == NameUnterminated
    ensures count > 0 && start + FIXED_SIZE > |buf| ==>
            ParseEntries(buf, start, count, prefix) == Failure(IndexEntryTruncated)
    ensures count > 0 && start + FIXED_SIZE <= |buf| &&
            (forall j :: start + FIXED_SIZE <= j < |buf| ==> buf[j] != 0) ==>
            ParseEntries(buf, start, count, prefix) == Failure(NameUnterminated)
    decreases |buf| - start
  {
    DecodeRecordFailure(buf, start);
    if count > 0 {
      match DecodeRecord(buf, start)
      case Failure(_) =>
      case Success((rec, pos1)) =>
        var e := Classify(rec, prefix + [rec.name]);
        ParseErrors(buf, pos1, Arity(e), e.path);
        var c := ParseEntries(buf, pos1, Arity(e), e.path);
        if c.Success? {
          ParseErrors(buf, c.value.0, count - 1, prefix);
        }
    }
  }

  /** The source reads a file entry without recursing: with no children to
      read, the parser's recursive call for a file is the identity, so the
      parse goes straight on to the siblings. */
  lemma ParseFileStep(buf: Bytes, start: nat, count: nat, prefix: Path)
    requires count > 0
    requires DecodeRecord(buf, start).Success?
    requires !IsDirFlags(DecodeRecord(buf, start).value.0.flags)
    ensures var (rec, pos1) := DecodeRecord(buf, start).value;
            var e := File(prefix + [rec.name], rec.offset, rec.csize, rec.usize, rec.flags, rec.time);
            ParseEntries(buf, start, count, prefix) ==
              match ParseEntries(buf, pos1, count - 1, prefix)
              case Failure(err) => Failure(err)
              case Success((pos3, rest)) => Success((pos3, [e] + rest))
  {
    var (rec, pos1) := DecodeRecord(buf, start).value;
    var e := Classify(rec, prefix + [rec.name]);
    assert ParseEntries(buf, pos1, Arity(e), e.path) == Success((pos1, []));
    var t := ParseEntries(buf, pos1, count - 1, prefix);
    if t.Success? {
      assert [e] + [] + t.value.1 == [e] + t.value.1;
    }
  }

  // ---------------------------------------------------------------------
  // The tree the parser's output forms

  /** p names a direct child of the directory at `prefix`. */
  predicate ChildOf(p: Path, prefix: Path) {
    |p| == |prefix| + 1 && p[..|prefix|] == prefix
  }

  /** Where n consecutive trees of entries starting at index i end, or None:
      each root's path is `prefix` joined with one more component, and the
      root's `Arity` direct children follow it at once as trees under the
      root's own path. */
  function Nest(es: seq<Entry>, i: nat, n: nat, prefix: Path): (r: Option<nat>)
    requires i <= |es|
    ensures r.Some? ==> i + n <= r.value <= |es|
    decreases |es| - i, n
  {
    if n == 0 then Some(i)
    else if i == |es| || !ChildOf(es[i].path, prefix) then None
    else
      match Nest(es, i + 1, Arity(es[i]), es[i].path)
      case None => None
      case Some(j) => Nest(es, j, n - 1, prefix)
  }

  /** A run of n trees taken apart: the root, its children's trees, and
      the m == n - 1 trees after them. */
  lemma NestSplit(es: seq<Entry>, i: nat, n: nat, m: nat, prefix: Path, j: nat) returns (j1: nat)
    requires i <= |es| && n == m + 1
    requires Nest(es, i, n, prefix) == Some(j)
    ensures i < |es| && ChildOf(es[i].path, prefix)
    ensures i + 1 <= j1 <= j
    ensures Nest(es, i + 1, Arity(es[i]), es[i].path) == Some(j1)
    ensures Nest(es, j1, m, prefix) == Some(j)
  {
    j1 := Nest(es, i + 1, Arity(es[i]), es[i].path).value;
  }

  lemma NestJoin(es: seq<Entry>, i: nat, i1: nat, n: nat, m: nat, prefix: Path, j1: nat, j: nat)
    requires i < |es| && i1 == i + 1 && n == m + 1
    requires ChildOf(es[i].path, prefix)
    requires Nest(es, i1, Arity(es[i]), es[i].path) == Some(j1)
    requires Nest(es, j1, m, prefix) == Some(j)
    ensures Nest(es, i, n, prefix) == Some(j)
  {
  }

  /** Trees of entries keep their shape inside a longer list that holds
      the entries from index `off` on. */
  lemma {:induction false} NestFrame(big: seq<Entry>, off: nat, es: seq<Entry>,
                                     i: nat, n: nat, prefix: Path, j: nat)
    requires off + |es| <= |big|
    requires forall k :: 0 <= k < |es| ==> big[off + k] == es[k]
    requires i <= |es|
    requires Nest(es, i, n, prefix) == Some(j)
    ensures Nest(big, off + i, n, prefix) == Some(off + j)
    decreases |es| - i, n
  {
    if n == 0 {
      assert j == i;
      NestNone(big, off + i, prefix);
    } else {
      var m: nat := n - 1;
      var j1 := NestSplit(es, i, n, m, prefix, j);
      NestFrame(big, off, es, i + 1, Arity(es[i]), es[i].path, j1);
      NestFrame(big, off, es, j1, m, prefix, j);
      assert big[off + i] == es[i];
      NestJoin(big, off + i, off + i + 1, n, m, prefix, off + j1, off + j);
    }
  }

  lemma NestNone(es: seq<Entry>, i: nat, prefix: Path)
    requires i <= |es|
    ensures Nest(es, i, 0, prefix) == Some(i)
  {
  }

  /** A root under `prefix`, its children's trees and m further trees
      form m + 1 trees. */
  lemma NestCons(e: Entry, kids: seq<Entry>, rest: seq<Entry>, n: nat, m: nat, prefix: Path)
    requires n == m + 1 && ChildOf(e.path, prefix)
    requires Nest(kids, 0, Arity(e), e.path) == Some(|kids|)
    requires Nest(rest, 0, m, prefix) == Some(|rest|)
    ensures Nest([e] + kids + rest, 0, n, prefix) == Some(|[e] + kids + rest|)
  {
    var es := [e] + kids + rest;
    assert es[0] == e && es[1..1 + |kids|] == kids && es[1 + |kids|..] == rest by {
      Assoc([e], kids, rest);
      ConcatParts([e], kids, rest);
    }
    NestGlue(es, e, kids, rest, n, m, prefix);
  }

  lemma NestGlue(es: seq<Entry>, e: Entry, kids: seq<Entry>, rest: seq<Entry>, n: nat, m: nat, prefix: Path)
    requires n == m + 1 && ChildOf(e.path, prefix)
    requires |es| == 1 + |kids| + |rest|
    requires es[0] == e && es[1..1 + |kids|] == kids && es[1 + |kids|..] == rest
    requires Nest(kids, 0, Arity(e), e.path) == Some(|kids|)
    requires Nest(rest, 0, m, prefix) == Some(|rest|)
    ensures Nest(es, 0, n, prefix) == Some(|es|)
  {
    Window(es, 1, kids);
    Window(es, 1 + |kids|, rest);
    NestFrame(es, 1, kids, 0, Arity(e), e.path, |kids|);
    NestFrame(es, 1 + |kids|, rest, 0, m, prefix, |rest|);
    NestJoin(es, 0, 1, n, m, prefix, 1 + |kids|, |es|);
  }

  /** A successful parse of the index takes the parser's recursive call for
      the head apart: the record read, its children's parse and its
      siblings' parse. */
  lemma ParseSplit(buf: Bytes, start: nat, count: nat, m: nat, prefix: Path)
    returns (rec: Record, pos1: nat, pos2: nat, kids: seq<Entry>, pos3: nat, rest: seq<Entry>)
    requires count == m + 1
    requires ParseEntries(buf, start, count, prefix).Success?
    ensures start < pos1 <= pos2 <= |buf|
    ensures DecodeRecord(buf, start) == Success((rec, pos1))
    ensures WellFormed(rec) && buf[start..pos1] == EncodeRecord(rec)
    ensures var e := Classify(rec, prefix + [rec.name]);
            && ParseEntries(buf, pos1, Arity(e), e.path) == Success((pos2, kids))
            && ParseEntries(buf, pos2, m, prefix) == Success((pos3, rest))
            && ParseEntries(buf, start, count, prefix) == Success((pos3, [e] + kids + rest))
  {
    var d := DecodeRecord(buf, start);
    rec, pos1 := d.value.0, d.value.1;
    DecodeRecordBytes(buf, start);
    var e := Classify(rec, prefix + [rec.name]);
    var c := ParseEntries(buf, pos1, Arity(e), e.path);
    pos2, kids := c.value.0, c.value.1;
    var t := ParseEntries(buf, pos2, m, prefix);
    pos3, rest := t.value.0, t.value.1;
  }

  /** The converse step: a head record whose children's parse and
      siblings' parse succeed is parsed into their concatenation. */
  lemma ParseJoin(buf: Bytes, start: nat, count: nat, m: nat, prefix: Path,
                  rec: Record, pos1: nat, e: Entry, pos2: nat, kids: seq<Entry>, pos3: nat, rest: seq<Entry>)
    requires count == m + 1
    requires DecodeRecord(buf, start) == Success((rec, pos1))
    requires e == Classify(rec, prefix + [rec.name])
    requires ParseEntries(buf, pos1, Arity(e), e.path) == Success((pos2, kids))
    requires ParseEntries(buf, pos2, m, prefix) == Success((pos3, rest))
    ensures ParseEntries(buf, start, count, prefix) == Success((pos3, [e] + kids + rest))
  {
  }

  /** Whatever the buffer holds, a successful parse of `count` entries
      under `prefix` returns exactly `count` trees: every top-level path is
      the prefix joined with the entry's name, and each directory's
      `childCount` direct children follow it at once, under its path. */
  lemma {:induction false} ParseNested(buf: Bytes, start: nat, count: nat, prefix: Path, q: nat, es: seq<Entry>)
    requires ParseEntries(buf, start, count, prefix) == Success((q, es))
    ensures Nest(es, 0, count, prefix) == Some(|es|)
    decreases |buf| - start
  {
    if count > 0 {
      var m: nat := count - 1;
      var rec, pos1, pos2, kids, pos3, rest := ParseSplit(buf, start, count, m, prefix);
      var e := Classify(rec, prefix + [rec.name]);
      ParseNested(buf, pos1, Arity(e), e.path, pos2, kids);
      ParseNested(buf, pos2, m, prefix, pos3, rest);
      ChildOfJoin(prefix, rec.name);
      NestCons(e, kids, rest, count, m, prefix);
    }
  }

  lemma ChildOfJoin(prefix: Path, name: Bytes)
    ensures ChildOf(prefix + [name], prefix)
  {
    assert (prefix + [name])[..|prefix|] == prefix;
  }

  /** The trees of entries have the shape of their child counts. */
  lemma {:induction false} NestTrees(es: seq<Entry>, i: nat, n: nat, prefix: Path, j: nat)
    requires i <= |es|
    requires Nest(es, i, n, prefix) == Some(j)
    ensures Trees(Arities(es), i, n) == Some(j)
    decreases |es| - i, n
  {
    if n > 0 {
      var m: nat := n - 1;
      var j1 := NestSplit(es, i, n, m, prefix, j);
      NestTrees(es, i + 1, Arity(es[i]), es[i].path, j1);
      NestTrees(es, j1, m, prefix, j);
      TreesJoin(Arities(es), i, n, m, j1, j);
    }
  }

  lemma TreesJoin(ar: seq<nat>, i: nat, n: nat, m: nat, j1: nat, j: nat)
    requires i < |ar| && n == m + 1
    requires Trees(ar, i + 1, ar[i]) == Some(j1)
    requires Trees(ar, j1, m) == Some(j)
    ensures Trees(ar, i, n) == Some(j)
  {
  }

  /** p lies strictly inside the directory at `prefix`. */
  predicate Below(p: Path, prefix: Path) {
    |p| > |prefix| && p[..|prefix|] == prefix
  }

  lemma BelowChild(p: Path, parent: Path, prefix: Path)
    requires Below(p, parent) && ChildOf(parent, prefix)
    ensures Below(p, prefix) && |p| > |prefix| + 1
  {
    assert p[..|prefix|] == p[..|parent|][..|prefix|];
  }

  /** Every entry of the trees lies inside the directory at `prefix`. */
  lemma {:induction false} NestBelow(es: seq<Entry>, i: nat, n: nat, prefix: Path, j: nat)
    requires i <= |es|
    requires Nest(es, i, n, prefix) == Some(j)
    ensures forall k :: i <= k < j ==> Below(es[k].path, prefix)
    decreases |es| - i, n
  {
    if n > 0 {
      var m: nat := n - 1;
      var j1 := NestSplit(es, i, n, m, prefix, j);
      NestBelow(es, i + 1, Arity(es[i]), es[i].path, j1);
      NestBelow(es, j1, m, prefix, j);
      forall k | i + 1 <= k < j1
        ensures Below(es[k].path, prefix)
      {
        BelowChild(es[k].path, es[i].path, prefix);
      }
    }
  }

  /** How many of es[i..j] sit at depth d, a path of d components. */
  function AtDepth(es: seq<Entry>, i: nat, j: nat, d: nat): nat
    requires i <= j <= |es|
    decreases j - i
  {
    if i == j then 0 else (if |es[i].path| == d then 1 else 0) + AtDepth(es, i + 1, j, d)
  }

  lemma {:induction false} AtDepthSplit(es: seq<Entry>, i: nat, k: nat, j: nat, d: nat)
    requires i <= k <= j <= |es|
    ensures AtDepth(es, i, j, d) == AtDepth(es, i, k, d) + AtDepth(es, k, j, d)
    decreases k - i
  {
    if i < k {
      AtDepthSplit(es, i + 1, k, j, d);
    }
  }

  lemma {:induction false} AtDepthNone(es: seq<Entry>, i: nat, j: nat, d: nat)
    requires i <= j <= |es|
    requires forall k :: i <= k < j ==> |es[k].path| > d
    ensures AtDepth(es, i, j, d) == 0
    decreases j - i
  {
    if i < j {
      AtDepthNone(es, i + 1, j, d);
    }
  }

  /** Exactly n of the entries are roots, one level below `prefix`; all
      others are deeper. */
  lemma {:induction false} NestRoots(es: seq<Entry>, i: nat, n: nat, prefix: Path, j: nat)
    requires i <= |es|
    requires Nest(es, i, n, prefix) == Some(j)
    ensures AtDepth(es, i, j, |prefix| + 1) == n
    decreases |es| - i, n
  {
    if n > 0 {
      var m: nat := n - 1;
      var d := |prefix| + 1;
      var j1 := NestSplit(es, i, n, m, prefix, j);
      NestRoots(es, j1, m, prefix, j);
      NestBelow(es, i + 1, Arity(es[i]), es[i].path, j1);
      AtDepthNone(es, i + 1, j1, d);
      AtDepthSplit(es, i + 1, j1, j, d);
    }
  }

  /** The output of a call under `prefix`: `count` entries one level below
      it, every entry somewhere below it, and child counts that describe
      its shape. At top level these are the `count` entries with a
      one-component path. */
  lemma ParseShape(buf: Bytes, start: nat, count: nat, prefix: Path, q: nat, es: seq<Entry>)
    requires ParseEntries(buf, start, count, prefix) == Success((q, es))
    ensures AtDepth(es, 0, |es|, |prefix| + 1) == count
    ensures forall k :: 0 <= k < |es| ==> Below(es[k].path, prefix)
    ensures Trees(Arities(es), 0, count) == Some(|es|)
  {
    ParseNested(buf, start, count, prefix, q, es);
    NestRoots(es, 0, count, prefix, |es|);
    NestBelow(es, 0, count, prefix, |es|);
    NestTrees(es, 0, count, prefix, |es|);
  }

  // ---------------------------------------------------------------------
  // The records behind the parser's output

  /** Entry k was read from record k: a directory exactly when the
      record's flags say so, carrying the record's fields, with a path
      that ends in the record's name. */
  predicate Reads(rs: seq<Record>, es: seq<Entry>) {
    && |rs| == |es|
    && forall k :: 0 <= k < |es| ==>
         && es[k] == Classify(rs[k], es[k].path)
         && |es[k].path| > 0 && es[k].path[|es[k].path| - 1] == rs[k].name
  }

  lemma ReadsCons(r: Record, rk: seq<Record>, rr: seq<Record>, prefix: Path,
                  e: Entry, kids: seq<Entry>, rest: seq<Entry>)
    requires e == Classify(r, prefix + [r.name])
    requires Reads(rk, kids) && Reads(rr, rest)
    ensures Reads([r] + rk + rr, [e] + kids + rest)
  {
    var rs, es := [r] + rk + rr, [e] + kids + rest;
    forall k | 0 <= k < |es|
      ensures es[k] == Classify(rs[k], es[k].path)
      ensures |es[k].path| > 0 && es[k].path[|es[k].path| - 1] == rs[k].name
    {
      if k == 0 {
      } else if k <= |kids| {
        assert es[k] == kids[k - 1] && rs[k] == rk[k - 1];
      } else {
        assert es[k] == rest[k - 1 - |kids|] && rs[k] == rr[k - 1 - |kids|];
      }
    }
  }

  predicate AllWellFormed(rs: seq<Record>) {
    forall k :: 0 <= k < |rs| ==> WellFormed(rs[k])
  }

  /** buf[start..q] is exactly the encoding of the well-formed records rs. */
  ghost predicate Occupies(buf: Bytes, start: nat, q: nat, rs: seq<Record>) {
    && AllWellFormed(rs)
    && start <= q <= |buf|
    && buf[start..q] == EncodeAll(rs)
  }

  /** Whatever the buffer holds, a successful parse read a run of
      well-formed records lying back to back from `start` to the position
      it returned, and each entry it returned was read from its record. */
  lemma {:induction false} ParseRecords(buf: Bytes, start: nat, count: nat, prefix: Path, q: nat, es: seq<Entry>)
    returns (rs: seq<Record>)
    requires start <= |buf|
    requires ParseEntries(buf, start, count, prefix) == Success((q, es))
    ensures Occupies(buf, start, q, rs) && Reads(rs, es)
    decreases |buf| - start
  {
    if count == 0 {
      rs := [];
      assert buf[start..start] == [] == EncodeAll([]);
    } else {
      var m: nat := count - 1;
      var rec, pos1, pos2, kids, pos3, rest := ParseSplit(buf, start, count, m, prefix);
      var e := Classify(rec, prefix + [rec.name]);
      var rk := ParseRecords(buf, pos1, Arity(e), e.path, pos2, kids);
      var rr := ParseRecords(buf, pos2, m, prefix, pos3, rest);
      rs := [rec] + rk + rr;
      OccupiesCons(buf, start, pos1, pos2, pos3, rec, rk, rr);
      ReadsCons(rec, rk, rr, prefix, e, kids, rest);
    }
  }

  lemma OccupiesCons(buf: Bytes, start: nat, pos1: nat, pos2: nat, pos3: nat,
                     rec: Record, rk: seq<Record>, rr: seq<Record>)
    requires start <= pos1 <= |buf|
    requires WellFormed(rec) && buf[start..pos1] == EncodeRecord(rec)
    requires Occupies(buf, pos1, pos2, rk) && Occupies(buf, pos2, pos3, rr)
    ensures Occupies(buf, start, pos3, [rec] + rk + rr)
  {
    EncodeAllCons(rec, rk, rr);
    SliceSplit3(buf, start, pos1, pos2, pos3);
    AllWellFormedCons(rec, rk, rr);
  }

  lemma EncodeAllCons(rec: Record, rk: seq<Record>, rr: seq<Record>)
    ensures EncodeAll([rec] + rk + rr) == EncodeRecord(rec) + EncodeAll(rk) + EncodeAll(rr)
  {
    EncodeAllAppend([rec] + rk, rr);
    EncodeAllAppend([rec], rk);
    assert EncodeAll([rec]) == EncodeRecord(rec) + EncodeAll([]);
  }

  lemma SliceSplit3(buf: Bytes, a: nat, b: nat, c: nat, d: nat)
    requires a <= b <= c <= d <= |buf|
    ensures buf[a..d] == buf[a..b] + buf[b..c] + buf[c..d]
  {
    SliceSplit(buf, a, b, d);
    SliceSplit(buf, b, c, d);
  }

  lemma AllWellFormedCons(rec: Record, rk: seq<Record>, rr: seq<Record>)
    requires WellFormed(rec) && AllWellFormed(rk) && AllWellFormed(rr)
    ensures AllWellFormed([rec] + rk + rr)
  {
    var rs := [rec] + rk + rr;
    forall k | 0 <= k < |rs|
      ensures WellFormed(rs[k])
    {
      if 0 < k <= |rk| {
        assert rs[k] == rk[k - 1];
      } else if k > |rk| {
        assert rs[k] == rr[k - 1 - |rk|];
      }
    }
  }

  // ---------------------------------------------------------------------
  // Parsing an encoded record list

  /** Byte position of record i in the encoding of rs. */
  function Offset(rs: seq<Record>, i: nat): nat
    requires i <= |rs|
  {
    |EncodeAll(rs[..i])|
  }

  lemma EncodeAllAt(rs: seq<Record>, i: nat)
    requires i < |rs|
    ensures EncodeAll(rs) == EncodeAll(rs[..i]) + EncodeRecord(rs[i]) + EncodeAll(rs[i + 1..])
    ensures Offset(rs, i + 1) == Offset(rs, i) + |EncodeRecord(rs[i])|
  {
    assert rs == rs[..i] + [rs[i]] + rs[i + 1..];
    EncodeAllAppend(rs[..i] + [rs[i]], rs[i + 1..]);
    EncodeAllAppend(rs[..i], [rs[i]]);
    assert EncodeAll([rs[i]]) == EncodeRecord(rs[i]) + EncodeAll([]);
    assert rs[..i + 1] == rs[..i] + [rs[i]];
  }

  lemma OffsetEnds(rs: seq<Record>)
    ensures Offset(rs, |rs|) == |EncodeAll(rs)|
    ensures Offset(rs, 0) == 0
  {
    assert rs[..|rs|] == rs;
    assert rs[..0] == [];
  }

  /** Record i of a well-formed list is read back from its own offset. */
  lemma DecodeRecordAt(rs: seq<Record>, i: nat)
    requires AllWellFormed(rs)
    requires i < |rs|
    ensures DecodeRecord(EncodeAll(rs), Offset(rs, i)) == Success((rs[i], Offset(rs, i + 1)))
  {
    EncodeAllAt(rs, i);
    DecodeInConcat(EncodeAll(rs), EncodeAll(rs[..i]), rs[i], EncodeAll(rs[i + 1..]), Offset(rs, i), Offset(rs, i + 1));
  }

  lemma DecodeInConcat(buf: Bytes, pre: Bytes, r: Record, post: Bytes, off: nat, next: nat)
    requires WellFormed(r)
    requires buf == pre + EncodeRecord(r) + post
    requires off == |pre| && next == off + |EncodeRecord(r)|
    ensures DecodeRecord(buf, off) == Success((r, next))
  {
    var e := EncodeRecord(r);
    SliceOfConcat(pre, e, post, 0, |e|);
    DecodeEncodeRecord(buf, |pre|, r);
  }

  /** Parsing the encoding of well-formed records whose child counts form
      n trees from record i succeeds, stops at the record where those
      trees end, and reads each entry from its own record. */
  lemma {:induction false} ParseEncoded(rs: seq<Record>, i: nat, n: nat, prefix: Path, j: nat)
    returns (es: seq<Entry>)
    requires AllWellFormed(rs)
    requires i <= |rs|
    requires Trees(RecordArities(rs), i, n) == Some(j)
    ensures ParseEntries(EncodeAll(rs), Offset(rs, i), n, prefix) == Success((Offset(rs, j), es))
    ensures Reads(rs[i..j], es)
    decreases |rs| - i, n
  {
    if n == 0 {
      es := [];
    } else {
      var m: nat := n - 1;
      var j1 := TreesSplit(RecordArities(rs), i, n, m, j);
      DecodeRecordAt(rs, i);
      var e := Classify(rs[i], prefix + [rs[i].name]);
      var kids := ParseEncoded(rs, i + 1, Arity(e), e.path, j1);
      var rest := ParseEncoded(rs, j1, m, prefix, j);
      ParseJoin(EncodeAll(rs), Offset(rs, i), n, m, prefix, rs[i], Offset(rs, i + 1), e,
                Offset(rs, j1), kids, Offset(rs, j), rest);
      es := [e] + kids + rest;
      SliceCons(rs, i, j1, j);
      ReadsCons(rs[i], rs[i + 1..j1], rs[j1..j], prefix, e, kids, rest);
    }
  }

  lemma SliceCons<T>(s: seq<T>, i: nat, j1: nat, j: nat)
    requires i < j1 <= j <= |s|
    ensures s[i..j] == [s[i]] + s[i + 1..j1] + s[j1..j]
  {
  }

  /** The index round trip on record lists: parsing the encoding of
      well-formed records whose child counts form `count` trees consumes
      the whole encoding and reads every entry from its record. */
  lemma ParseEncodeAll(rs: seq<Record>, count: nat) returns (es: seq<Entry>)
    requires AllWellFormed(rs)
    requires Trees(RecordArities(rs), 0, count) == Some(|rs|)
    ensures ParseEntries(EncodeAll(rs), 0, count, []) == Success((|EncodeAll(rs)|, es))
    ensures Reads(rs, es)
  {
    OffsetEnds(rs);
    es := ParseEncoded(rs, 0, count, [], |rs|);
    assert rs[0..|rs|] == rs;
  }

  // ---------------------------------------------------------------------
  // extract_file

  /** `extract_file` without the write to disk: the bytes of file entry `e`
      in the container `pak`, whose data section starts at `base`. The
      slice is passed through unchanged when the compressed and
      uncompressed sizes agree and inflated otherwise; either way it must
      come out at the uncompressed size. */
  function ExtractFile(d: Codec, pak: Bytes, e: Entry, base: nat): (r: Result<Bytes>)
    requires e.File?
    ensures r.Success? ==> |r.value| == e.usize
    ensures base + e.offset + e.csize > |pak| <==> r == Failure(RangeError)
    ensures base + e.offset + e.csize <= |pak| && e.csize == e.usize ==>
              r == Success(pak[base + e.offset .. base + e.offset + e.csize])
    ensures base + e.offset + e.csize <= |pak| && e.csize != e.usize ==>
              var inflated := d.decompress(pak[base + e.offset .. base + e.offset + e.csize]);
              && (inflated.None? ==> r == Failure(InflateFailed))
              && (inflated.Some? && |inflated.value| != e.usize ==> r == Failure(SizeMismatch))
              && (inflated.Some? && |inflated.value| == e.usize ==> r == Success(inflated.value))
  {
    var abs := base + e.offset;
    if abs + e.csize > |pak| then Failure(RangeError)
    else
      var slice := pak[abs..abs + e.csize];
      var payload :-
        if e.csize != e.usize then
          match d.decompress(slice)
          case None => Failure(InflateFailed)
          case Some(x) => Success(x)
        else Success(slice);
      if |payload| != e.usize then Failure(SizeMismatch) else Success(payload)
  }

  /** The entries of type "file", in order. */
  function Files(es: seq<Entry>): (fs: seq<Entry>)
    ensures forall k :: 0 <= k < |fs| ==> fs[k].File?
    ensures forall e :: e in fs <==> e in es && e.File?
  {
    if |es| == 0 then []
    else (if es[0].File? then [es[0]] else []) + Files(es[1..])
  }

  /** A single entry is kept exactly when it is a file. */
  lemma FilesOne(e: Entry)
    ensures Files([e]) == if e.File? then [e] else []
  {
    assert [e][1..] == [];
  }

  /** Selecting the files of a concatenation selects from each part:
      nothing is dropped, added or reordered. */
  lemma {:induction false} FilesAppend(a: seq<Entry>, b: seq<Entry>)
    ensures Files(a + b) == Files(a) + Files(b)
    decreases |a|
  {
    if |a| == 0 {
      assert a + b == b;
    } else {
      assert (a + b)[0] == a[0];
      assert (a + b)[1..] == a[1..] + b;
      FilesAppend(a[1..], b);
      var head := if a[0].File? then [a[0]] else [];
      assert head + (Files(a[1..]) + Files(b)) == (head + Files(a[1..])) + Files(b);
    }
  }

  /** Extracting every file in turn: all payloads, or the first error. */
  function ExtractFiles(d: Codec, pak: Bytes, fs: seq<Entry>, base: nat): (r: Result<seq<Bytes>>)
    requires forall k :: 0 <= k < |fs| ==> fs[k].File?
    ensures r.Success? ==> |r.value| == |fs|
    ensures r.Success? ==> forall k :: 0 <= k < |fs| ==> ExtractFile(d, pak, fs[k], base) == Success(r.value[k])
    ensures r.Failure? ==> exists k :: 0 <= k < |fs| && ExtractFile(d, pak, fs[k], base) == Failure(r.error)
                                     && forall j :: 0 <= j < k ==> ExtractFile(d, pak, fs[j], base).Success?
  {
    if |fs| == 0 then Success([])
    else
      var out :- ExtractFile(d, pak, fs[0], base);
      var outs :- ExtractFiles(d, pak, fs[1..], base);
      Success([out] + outs)
  }

  /** The extraction loop at the end of `main`. */
  method ExtractAll(d: Codec, pak: Bytes, es: seq<Entry>, base: nat) returns (r: Result<seq<Bytes>>)
    ensures r == ExtractFiles(d, pak, Files(es), base)
    ensures r.Success? ==> forall k :: 0 <= k < |r.value| ==> |r.value[k]| == Files(es)[k].usize
  {
    var fs := Files(es);
    var outs: seq<Bytes> := [];
    var i := 0;
    assert fs[0..] == fs;
    PrependNil(ExtractFiles(d, pak, fs, base));
    while i < |fs|
      invariant 0 <= i <= |fs|
      invariant ExtractFiles(d, pak, fs, base) == Prepend(outs, ExtractFiles(d, pak, fs[i..], base))
    {
      var step := ExtractFile(d, pak, fs[i], base);
      PrependStep(d, pak, fs, i, base, outs);
      if step.Failure? {
        return Failure(step.error);
      }
      outs := outs + [step.value];
      i := i + 1;
    }
    assert outs + [] == outs;
    return Success(outs);
  }

  /** The earlier payloads `outs` in front of the outcome of the rest. */
  function Prepend(outs: seq<Bytes>, r: Result<seq<Bytes>>): Result<seq<Bytes>> {
    match r
    case Failure(err) => Failure(err)
    case Success(more) => Success(outs + more)
  }

  lemma PrependNil(r: Result<seq<Bytes>>)
    ensures Prepend([], r) == r
  {
    if r.Success? {
      assert [] + r.value == r.value;
    }
  }

  /** One turn of the extraction loop. */
  lemma PrependStep(d: Codec, pak: Bytes, fs: seq<Entry>, i: nat, base: nat, outs: seq<Bytes>)
    requires i < |fs|
    requires forall k :: 0 <= k < |fs| ==> fs[k].File?
    ensures var step := ExtractFile(d, pak, fs[i], base);
            && (step.Failure? ==> Prepend(outs, ExtractFiles(d, pak, fs[i..], base)) == Failure(step.error))
            && (step.Success? ==> Prepend(outs, ExtractFiles(d, pak, fs[i..], base))
                                  == Prepend(outs + [step.value], ExtractFiles(d, pak, fs[i + 1..], base)))
  {
    assert fs[i..][0] == fs[i];
    assert fs[i..][1..] == fs[i + 1..];
    var rest := ExtractFiles(d, pak, fs[i + 1..], base);
    if rest.Success? {
      var out := ExtractFile(d, pak, fs[i], base);
      if out.Success? {
        assert outs + ([out.value] + rest.value) == outs + [out.value] + rest.value;
      }
    }
  }

  // ---------------------------------------------------------------------
  // Loading the index (`main`, before the listing and the extraction)

  /** The compressed index: the slice `read_header` vouched for. */
  function IndexBlob(pak: Bytes, h: Header): (blob: Bytes)
    requires h.indexOffset + h.indexCompressed <= |pak|
    ensures |blob| == h.indexCompressed
    ensures forall i :: 0 <= i < |blob| ==> blob[i] == pak[h.indexOffset + i]
  {
    pak[h.indexOffset .. h.indexOffset + h.indexCompressed]
  }

  /** Reads the header, inflates the index, checks its size against the
      header and parses `rootCount` entries from its start. */
  function LoadIndex(d: Codec, pak: Bytes): (r: Result<(Header, seq<Entry>)>)
    ensures ReadHeader(pak).Failure? ==> r == Failure(ReadHeader(pak).error)
    ensures ReadHeader(pak).Success? ==>
      var h := ReadHeader(pak).value;
      var idx := d.decompress(IndexBlob(pak, h));
      && (idx.None? ==> r == Failure(IndexInflateFailed))
      && (idx.Some? && |idx.value| != h.indexUncompressed ==> r == Failure(IndexSizeMismatch))
      && (idx.Some? && |idx.value| == h.indexUncompressed ==>
            var p := ParseEntries(idx.value, 0, h.rootCount, []);
            && (p.Failure? ==> r == Failure(p.error))
            && (p.Success? ==> r == Success((h, p.value.1))))
    ensures r.Success? ==>
      var (h, es) := r.value;
      && AtDepth(es, 0, |es|, 1) == h.rootCount
      && Trees(Arities(es), 0, h.rootCount) == Some(|es|)
  {
    var h :- ReadHeader(pak);
    match d.decompress(IndexBlob(pak, h))
    case None => Failure(IndexInflateFailed)
    case Some(idx) =>
      if |idx| != h.indexUncompressed then Failure(IndexSizeMismatch)
      else
        match ParseEntries(idx, 0, h.rootCount, [])
        case Failure(err) => Failure(err)
        case Success((q, es)) =>
          ParseShape(idx, 0, h.rootCount, [], q, es);
          Success((h, es))
  }

  // ---------------------------------------------------------------------
  // serialize_entries

  /** One entry as the JSON object `serialize_entries` dumps: the path as
      text and the time field as lower-case hex. */
  function Serialize(e: Entry): (m: Meta)
    ensures m.path == JoinPath(e.path)
    ensures m.timeHex == Some(ToHex(e.time))
    ensures m.attributes == Some(e.attributes)
    ensures e.Dir? <==> m.kind == DirKind
    ensures e.File? <==> m.kind == FileKind
    ensures e.Dir? ==> m.childCount == Some(e.childCount) && m.offset.None? && m.csize.None? && m.usize.None?
    ensures e.File? ==> m.childCount.None? && m.offset == Some(e.offset) && m.csize == Some(e.csize) && m.usize == Some(e.usize)
  {
    match e
    case Dir(path, cc, attrs, time) =>
      Meta(DirKind, JoinPath(path), Some(cc), None, None, None, Some(attrs), Some(ToHex(time)))
    case File(path, off, cs, us, attrs, time) =>
      Meta(FileKind, JoinPath(path), None, Some(off), Some(cs), Some(us), Some(attrs), Some(ToHex(time)))
  }

  function SerializeEntries(es: seq<Entry>): (ms: seq<Meta>)
    ensures |ms| == |es|
    ensures forall k :: 0 <= k < |es| ==> ms[k] == Serialize(es[k])
  {
    seq(|es|, k requires 0 <= k < |es| => Serialize(es[k]))
  }

  /** The dumped hex time parses back to the entry's time field. */
  lemma SerializeTime(e: Entry)
    ensures FromHex(Serialize(e).timeHex.value) == Some(e.time)
  {
    FromHexToHex(e.time);
  }
}
