/** fdt.c: the blob and the walker. */
module Fdt {
  import opened Bytes
  import opened Strings
  import opened CString
  import opened Trees
  import opened Tokens
  import opened Lexer
  import opened Walk
  import opened Views

  /** A blob in a buffer. The header is kept apart from the bytes: every block starts at or after byte 40. */
  class Blob {
    const buf: array<byte>
    var h: Header
    ghost var v: View
    ghost var rsv: seq<Rsv>

    /** The blob lies inside its buffer. */
    predicate Sane()
      reads this
    {
      h.totalsize <= buf.Length < TWO31
    }

    /** The bytes mean what the ghost view says. */
    ghost predicate Readable()
      reads this, buf
    {
      Sane() && Legible(h, buf[..], v)
    }

    /** The blob can be edited in place. */
    ghost predicate Valid()
      reads this, buf
    {
      Sane() && Editable(h, buf[..], v, rsv)
    }

    constructor (size: nat)
      ensures buf.Length == size && fresh(buf)
    {
      buf := new byte[size];
      h := Header(0, 0, 0, 0, 0, 0, 0, 0, 0, 0);
      v := View([], [], [], Node([], [], []));
      rsv := [];
    }
  }

  lemma ReadableOk(fdt: Blob)
    requires fdt.Readable()
    ensures fdt.v.Ok()
  {
  }

  /** The result of `fdt_check_header`. */
  function HeaderError(h: Header): int {
    if h.magic == FDT_MAGIC then
      if h.version < FDT_FIRST_SUPPORTED_VERSION || h.lastComp > FDT_LAST_SUPPORTED_VERSION
      then -ERR_BADVERSION else 0
    else if h.magic == FDT_SW_MAGIC then
      if h.sizeStruct == 0 then -ERR_BADSTATE else 0
    else -ERR_BADMAGIC
  }

  /** `fdt_offset_ptr`: whether `len` bytes at `offset` may be read. All sums are 32-bit sums, as in C; the
      contract says that they never let a reader out of the block. */
  method OffsetPtr(fdt: Blob, offset: int, len: u32) returns (ok: bool)
    requires fdt.Sane() && -TWO31 <= offset < TWO31
    ensures len > 0 || fdt.h.offStruct <= fdt.h.totalsize ==>
      (ok <==> 0 <= offset && offset + len <= |Region(fdt.h, fdt.buf[..])|)
  {
    var h := fdt.h;
    var uoffset := U32(offset);
    var absoffset := U32(offset + h.offStruct);
    if absoffset < uoffset || U32(absoffset + len) < absoffset || U32(absoffset + len) > h.totalsize {
      return false;
    }
    if h.version >= 0x11 {
      if U32(uoffset + len) < uoffset || U32(uoffset + len) > h.sizeStruct {
        return false;
      }
    }
    return true;
  }

  /** Reading a big-endian cell. */
  method Fdt32(fdt: Blob, i: nat) returns (w: u32)
    requires i + 4 <= fdt.buf.Length
    ensures w == Be32(fdt.buf[..], i)
  {
    var a := fdt.buf;
    assert a[..][i..i + 4] == a[i..i + 4];
    w := Cell(a[i..i + 4]);
  }

  /** A cell of the structure block. */
  method StructCell(fdt: Blob, offset: nat) returns (w: u32)
    requires fdt.Sane() && offset + 4 <= |Region(fdt.h, fdt.buf[..])|
    ensures w == Be32(Region(fdt.h, fdt.buf[..]), offset)
  {
    hide Be32, Region;
    RegionCell(fdt.h, fdt.buf[..], offset);
    w := Fdt32(fdt, fdt.h.offStruct + offset);
  }

  lemma RegionSize(h: Header, m: bytes)
    ensures |Region(h, m)| <= |m|
  {
  }

  lemma RegionCell(h: Header, m: bytes, o: nat)
    requires h.totalsize <= |m| && o + 4 <= |Region(h, m)|
    ensures h.offStruct + o + 4 <= |m| && Be32(Region(h, m), o) == Be32(m, h.offStruct + o)
  {
    hide Cell;
    var s := Region(h, m);
    Sub(m, h.offStruct, s, o, o + 4);
  }

  method NextTag(fdt: Blob, startoffset: int) returns (tag: u32, nextoffset: int)
    requires fdt.Sane() && -TWO31 <= startoffset < TWO31
    ensures (tag, nextoffset) == TagAt(Region(fdt.h, fdt.buf[..]), startoffset)
  {
    hide Cell, NulAt, Align4, Min, Region, Be32, Extent;
    ghost var s := Region(fdt.h, fdt.buf[..]);
    RegionSize(fdt.h, fdt.buf[..]);
    var ok := OffsetPtr(fdt, startoffset, 4);
    if !ok { return FDT_END, -ERR_TRUNCATED; }
    tag := StructCell(fdt, startoffset);
    var offset := startoffset + 4;
    if tag == FDT_BEGIN_NODE {
      ok, offset := SkipName(fdt, offset);
      if !ok { return FDT_END, -ERR_BADSTRUCTURE; }
    } else if tag == FDT_PROP {
      ok := OffsetPtr(fdt, offset, 4);
      if !ok { return FDT_END, -ERR_BADSTRUCTURE; }
      var len := StructCell(fdt, offset);
      offset := AddLength(offset, len);
    } else if tag == FDT_END || tag == FDT_END_NODE || tag == FDT_NOP {
    } else {
      return FDT_END, -ERR_BADSTRUCTURE;
    }
    tag, nextoffset := FinishTag(fdt, tag, startoffset, offset);
  }

  /** The loop over the bytes of a node name: the offset after its NUL. */
  method SkipName(fdt: Blob, start: nat) returns (ok: bool, offset: nat)
    requires fdt.Sane() && start <= |Region(fdt.h, fdt.buf[..])|
    ensures var s := Region(fdt.h, fdt.buf[..]);
      (ok <==> NulAt(s, start) < |s|) && (ok ==> offset == NulAt(s, start) + 1)
  {
    hide Min;
    ghost var s := Region(fdt.h, fdt.buf[..]);
    offset := start;
    while true
      invariant start <= offset <= |s| && NulAt(s, start) == NulAt(s, offset)
      decreases |s| - offset
    {
      ok := OffsetPtr(fdt, offset, 1);
      offset := offset + 1;
      if !ok { return; }
      if fdt.buf[fdt.h.offStruct + offset - 1] == NUL { return; }
    }
  }

  /** `offset += 8 + len` on a 32-bit `int`. */
  method AddLength(offset: nat, len: u32) returns (r: int)
    requires 4 <= offset < TWO31
    ensures -TWO31 <= r < TWO31
    ensures U32(r - (offset - 4)) == U32(12 + len)
    ensures offset - 4 + U32(12 + len) < TWO31 ==> r == offset - 4 + U32(12 + len)
  {
    r := I32(U32(offset + 8 + len));
  }

  /** The last check of `fdt_next_tag`, and the rounding to the next tag. */
  method FinishTag(fdt: Blob, tag: u32, start: nat, offset: int) returns (t: u32, next: int)
    requires fdt.Sane() && start + 4 <= |Region(fdt.h, fdt.buf[..])| && -TWO31 <= offset < TWO31
    requires start + U32(offset - start) < TWO31 ==> offset == start + U32(offset - start)
    ensures (t, next) == Extent(Region(fdt.h, fdt.buf[..]), tag, start, U32(offset - start))
  {
    var len := U32(offset - start);
    var ok := OffsetPtr(fdt, start, len);
    if !ok { return FDT_END, -ERR_BADSTRUCTURE; }
    Align4Div(start + len);
    return tag, (offset + 3) / 4 * 4;
  }

  /** `fdt_check_node_offset_`. */
  method CheckNodeOffset(fdt: Blob, offset: int) returns (r: int)
    requires fdt.Sane() && offset < TWO31
    ensures r == NodeCheck(Region(fdt.h, fdt.buf[..]), offset)
  {
    if offset < 0 || offset % 4 != 0 { return -ERR_BADOFFSET; }
    var tag, next := NextTag(fdt, offset);
    return if tag != FDT_BEGIN_NODE then -ERR_BADOFFSET else next;
  }

  /** `fdt_check_prop_offset_`. */
  method CheckPropOffset(fdt: Blob, offset: int) returns (r: int)
    requires fdt.Sane() && offset < TWO31
    ensures r == PropCheck(Region(fdt.h, fdt.buf[..]), offset)
  {
    if offset < 0 || offset % 4 != 0 { return -ERR_BADOFFSET; }
    var tag, next := NextTag(fdt, offset);
    return if tag != FDT_PROP then -ERR_BADOFFSET else next;
  }

  /** What a scan from token `k` means for the offset and the depth that come back. */
  predicate Scanned(v: View, k: nat, sc: Scan, r: int, depth: int, j: nat) {
    match sc
    case Met(rest, d) => k <= j && Rest(v, j, rest) && v.toks[j].TBegin? && r == Off(v.toks, j) && depth == d
    case Out(rest) => k < j && Rest(v, j, rest) && v.toks[j - 1].TEnd? && r == Off(v.toks, j) && depth == -1
    case Over => r == -ERR_NOTFOUND
  }

  lemma ScannedStep(v: View, k: nat, l: Loc, track: bool, depth0: int, r: int, depth: int, j: nat)
    requires v.Ok() && v.Opens(k, l)
    requires Scanned(v, k + 1, Advance(Inside(l), track, depth0), r, depth, j)
    ensures Stepped(v, Off(v.toks, k), Next(l, track, depth0), r, depth)
  {
    hide Ser, Off, TagAt, Flatten, Named, Wf, Abs, Advance, Whole, Next, From, Tail;
    AdvanceNext(l, track, depth0);
    NextWhole(l, track, depth0);
    var st := Next(l, track, depth0);
    if !st.Done? {
      OffMono(v.toks, k, j);
      TokenCheck(v, j);
      if st.Visit? { assert v.Opens(j, st.l); } else { assert v.Closes(j, st.l); }
    }
  }

  /** The tag loop of `fdt_next_node`, from token `k` on. */
  method ScanTags(fdt: Blob, start: int, track: bool, depth0: int, ghost k: nat)
    returns (r: int, depth: int, ghost j: nat)
    requires fdt.Readable() && k < |fdt.v.toks| && start == Off(fdt.v.toks, k)
    requires Rest(fdt.v, k, Abs(fdt.v.toks[k..], fdt.v.tab)) && (track ==> depth0 >= 0 || fdt.v.toks[k].TBegin?)
    ensures fdt.v.toks[k].TBegin? ==> j == k
    ensures Scanned(fdt.v, k, Advance(Abs(fdt.v.toks[k..], fdt.v.tab), track, depth0), r, depth, j)
  {
    hide Ser, Off, TagAt, Region, Tab, Flatten, Named, Wf, Abs;
    ghost var v := fdt.v;
    ghost var es := Abs(v.toks[k..], v.tab);
    ghost var goal := Advance(es, track, depth0);
    var nextoffset := start;
    depth, j := depth0, k;
    while true
      invariant k <= j < |v.toks| && nextoffset == Off(v.toks, j)
      invariant Rest(v, j, es) && Advance(es, track, depth) == goal
      invariant (track ==> depth >= 0 || v.toks[k].TBegin?) && (v.toks[k].TBegin? ==> j == k)
      decreases |v.toks| - j
    {
      var offset, tag := nextoffset, FDT_NOP;
      TokenCheck(v, j);
      tag, nextoffset := NextTag(fdt, offset);
      if tag == FDT_END {
        TokenEvent(v, j, es);
        return if nextoffset >= 0 || (nextoffset == -ERR_TRUNCATED && !track)
          then -ERR_NOTFOUND else nextoffset, depth, j;
      }
      TokenEvent(v, j, es);
      RestStep(v, j, es);
      if tag == FDT_BEGIN_NODE {
        if track { depth := depth + 1; }
        return offset, depth, j;
      }
      if tag == FDT_END_NODE {
        if track { depth := depth - 1; }
        if track && depth < 0 { return nextoffset, depth, j + 1; }
      }
      es := if tag == FDT_NOP then es else es[1..];
      j := j + 1;
    }
  }

  /** `fdt_next_node` is one step of the preorder walk; the root comes after any negative offset. */
  method NextNode(fdt: Blob, offset: int, track: bool, depth0: int, ghost l: Loc) returns (r: int, depth: int)
    requires fdt.Readable() && offset < TWO31
    requires track && offset >= 0 && NodeCheck(fdt.v.s, offset) >= 0 ==> depth0 >= 0
    requires offset >= 0 ==> fdt.v.Handle(offset, l)
    ensures offset < 0 ==> r == 0 && depth == Deeper(track, depth0)
    ensures offset >= 0 && NodeCheck(fdt.v.s, offset) < 0 ==> r == -ERR_BADOFFSET && depth == depth0
    ensures offset >= 0 && NodeCheck(fdt.v.s, offset) >= 0 ==> Stepped(fdt.v, offset, Next(l, track, depth0), r, depth)
  {
    hide Ser, Off, TagAt, Flatten, Named, Wf, Abs, Advance, Region, Tab;
    ghost var v := fdt.v;
    ghost var k: nat := 0;
    var nextoffset := 0;
    if offset >= 0 {
      nextoffset := CheckNodeOffset(fdt, offset);
      NodeCheckSign(v.s, offset);
      if nextoffset < 0 { return nextoffset, depth0; }
      k :| v.Opens(k, l) && offset == Off(v.toks, k);
      TokenCheck(v, k);
      OpensRest(v, k, l);
      ghost var j: nat;
      r, depth, j := ScanTags(fdt, nextoffset, track, depth0, k + 1);
      ScannedStep(v, k, l, track, depth0, r, depth, j);
    } else {
      RootOpens(v);
      OpensRest(v, 0, Loc(Top, v.tree));
      OffZero(v.toks);
      AdvanceFrom(Loc(Top, v.tree), track, depth0);
      ghost var j: nat;
      r, depth, j := ScanTags(fdt, nextoffset, track, depth0, 0);
    }
  }

  /** What a step of the walk means for the offset and the depth that come back. */
  ghost predicate Stepped(v: View, offset: int, st: Step, r: int, depth: int) {
    match st
    case Visit(m, d) => v.NodeAt(r, m) && depth == d && offset < r < TWO31
    case Left(m) => v.EndAt(r, m) && depth == -1 && offset < r < TWO31
    case Done => r == -ERR_NOTFOUND
  }

  /** `fdt_first_subnode`. */
  method FirstSubnode(fdt: Blob, offset: int, ghost l: Loc) returns (r: int)
    requires fdt.Readable() && 0 <= offset < TWO31 && fdt.v.Handle(offset, l)
    ensures NodeCheck(fdt.v.s, offset) < 0 || l.node.kids == [] ==> r == -ERR_NOTFOUND
    ensures NodeCheck(fdt.v.s, offset) >= 0 && l.node.kids != [] ==>
      fdt.v.NodeAt(r, Child(l, 0)) && offset < r < TWO31
  {
    hide Whole;
    var depth: int;
    r, depth := NextNode(fdt, offset, true, 0, l);
    if r < 0 || depth != 1 { return -ERR_NOTFOUND; }
  }

  /** `fdt_next_subnode`: the next sibling, found by walking over the whole subtree in between. */
  method NextSubnode(fdt: Blob, offset: int, ghost l: Loc) returns (r: int)
    requires fdt.Readable() && 0 <= offset < TWO31 && fdt.v.Handle(offset, l)
    ensures NodeCheck(fdt.v.s, offset) < 0 || l.ctx.Top? || l.ctx.right == [] ==> r == -ERR_NOTFOUND
    ensures NodeCheck(fdt.v.s, offset) >= 0 && l.ctx.In? && l.ctx.right != [] ==>
      fdt.v.NodeAt(r, Sibling(l)) && offset < r < TWO31
  {
    hide Ser, Region, Tab, Flatten, Named, Wf, Abs, NodeCheck, Whole, Next;
    var depth: int := 1;
    r := offset;
    ghost var m := l;
    while true
      invariant offset <= r < TWO31 && depth >= 1 && fdt.v.Handle(r, m)
      invariant NodeCheck(fdt.v.s, offset) < 0 ==> r == offset
      invariant NodeCheck(fdt.v.s, offset) >= 0 ==> NodeCheck(fdt.v.s, r) >= 0
      invariant depth - 1 <= Depth(m.ctx) && Up(m, depth - 1) == l
      decreases TWO31 - r
    {
      NextFrom(m, depth - 1, l, 1);
      ghost var st := Next(m, true, depth);
      r, depth := NextNode(fdt, r, true, depth, m);
      if r < 0 || depth < 1 { return -ERR_NOTFOUND; }
      if depth <= 1 { return; }
      m := st.l;
      NodeAtCheck(fdt.v, r, m);
    }
  }

  /** `fdt_node_end_offset_`: the offset just past the subtree. */
  method NodeEndOffset(fdt: Blob, offset: int, ghost l: Loc) returns (r: int)
    requires fdt.Readable() && 0 <= offset < TWO31 && fdt.v.Handle(offset, l)
    ensures NodeCheck(fdt.v.s, offset) < 0 ==> r == -ERR_BADOFFSET
    ensures NodeCheck(fdt.v.s, offset) >= 0 ==> fdt.v.EndAt(r, l) && offset < r < TWO31
  {
    hide Ser, Region, Tab, Flatten, Named, Wf, Abs, NodeCheck, Whole, Next, Ending;
    var depth := 0;
    r := offset;
    ghost var m := l;
    EndingStart(fdt.v, offset, l);
    while r >= 0 && depth >= 0
      invariant Ending(fdt.v, offset, l, r, depth, m)
      decreases if r < 0 || depth < 0 then 0 else 1, TWO31 - r
    {
      EndingAt(fdt.v, offset, l, r, depth, m);
      NextFrom(m, depth, l, 0);
      ghost var r0, st := r, Next(m, true, depth);
      r, depth := NextNode(fdt, r, true, depth, m);
      EndingStep(fdt.v, offset, l, r0, st, r, depth);
      m := st.l;
    }
    EndingDone(fdt.v, offset, l, r, depth, m);
  }

  /** Between two steps of the walk that looks for the end of a node: the node `m` reached so far lies `depth` levels
      below `l`, or the end has been found, or the offset was refused. */
  ghost predicate Ending(v: View, offset: int, l: Loc, r: int, depth: int, m: Loc) {
    if r < 0 then r == -ERR_BADOFFSET && NodeCheck(v.s, offset) < 0
    else if depth < 0 then v.EndAt(r, l) && offset < r < TWO31 && NodeCheck(v.s, offset) >= 0
    else
      && offset <= r < TWO31 && v.Handle(r, m) && depth <= Depth(m.ctx) && Up(m, depth) == l
      && if NodeCheck(v.s, offset) < 0 then r == offset else NodeCheck(v.s, r) >= 0
  }

  lemma EndingStart(v: View, offset: int, l: Loc)
    requires 0 <= offset < TWO31 && v.Handle(offset, l)
    ensures Ending(v, offset, l, offset, 0, l)
  {
    hide NodeCheck, View.Handle;
  }

  lemma EndingAt(v: View, offset: int, l: Loc, r: int, depth: int, m: Loc)
    requires Ending(v, offset, l, r, depth, m) && r >= 0 && depth >= 0
    ensures offset <= r < TWO31 && v.Handle(r, m) && depth <= Depth(m.ctx) && Up(m, depth) == l
    ensures if NodeCheck(v.s, offset) < 0 then r == offset else NodeCheck(v.s, r) >= 0
  {
    hide NodeCheck, View.Handle, View.EndAt;
  }

  lemma EndingStep(v: View, offset: int, l: Loc, r0: int, st: Step, r: int, depth: int)
    requires v.Ok() && 0 <= offset <= r0 && !st.Done? && (st.Left? ==> st.l == l)
    requires st.Visit? ==> st.depth >= 0 && st.depth <= Depth(st.l.ctx) && Up(st.l, st.depth) == l
    requires if NodeCheck(v.s, offset) < 0 then r0 == offset else NodeCheck(v.s, r0) >= 0
    requires NodeCheck(v.s, r0) < 0 ==> r == -ERR_BADOFFSET
    requires NodeCheck(v.s, r0) >= 0 ==> Stepped(v, r0, st, r, depth)
    ensures Ending(v, offset, l, r, depth, st.l)
  {
    hide View.Ok, View.NodeAt, View.EndAt, NodeCheck;
    NodeCheckSign(v.s, offset);
    if r >= 0 && depth >= 0 { NodeAtCheck(v, r, st.l); }
  }

  lemma EndingDone(v: View, offset: int, l: Loc, r: int, depth: int, m: Loc)
    requires Ending(v, offset, l, r, depth, m) && (r < 0 || depth < 0)
    ensures NodeCheck(v.s, offset) < 0 ==> r == -ERR_BADOFFSET
    ensures NodeCheck(v.s, offset) >= 0 ==> v.EndAt(r, l) && offset < r < TWO31
  {
    hide NodeCheck, View.EndAt;
  }

  /** `fdt_find_string_`: the least offset of the string in the table, or -1. */
  method FindString(m: bytes, strtab: nat, tabsize: nat, s: bytes) returns (p: int)
    requires strtab + tabsize <= |m|
    ensures var t := m[strtab..strtab + tabsize];
      p == if FirstOccurrence(t, s, 0) == |t| then -1 else FirstOccurrence(t, s, 0)
  {
    hide FirstOccurrence, Occurs;
    ghost var t := m[strtab..strtab + tabsize];
    var z := s + [NUL];
    var last := tabsize - |z|;
    p := 0;
    while p <= last
      invariant 0 <= p <= |t| && FirstOccurrence(t, s, 0) == FirstOccurrence(t, s, p)
      decreases last - p
    {
      var res := Memcmp(m, strtab + p, z);
      FindStrHere(m, strtab, t, s, p);
      if res == 0 { return; }
      p := p + 1;
    }
    FindStrNone(t, s, p);
    return -1;
  }

  lemma FindStrHere(m: bytes, o: nat, t: bytes, s: bytes, p: nat)
    requires o + |t| <= |m| && m[o..o + |t|] == t && p + |s| + 1 <= |t|
    ensures FirstOccurrence(t, s, p) == if m[o + p..o + p + |s| + 1] == s + [NUL]
      then p else FirstOccurrence(t, s, p + 1)
  {
    Sub(m, o, t, p, p + |s| + 1);
  }

  lemma {:induction false} FindStrNone(t: bytes, s: bytes, i: nat)
    requires i <= |t| && i + |s| + 1 > |t|
    ensures FirstOccurrence(t, s, i) == |t|
    decreases |t| - i
  {
    if i < |t| { FindStrNone(t, s, i + 1); }
  }
}
