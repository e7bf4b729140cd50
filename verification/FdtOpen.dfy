/** fdt_rw.c: `fdt_open_into`, which makes any readable blob editable. */
module FdtOpen {
  import opened Bytes
  import opened Strings
  import opened CString
  import opened Trees
  import opened Tokens
  import opened Lexer
  import opened Walk
  import opened Views
  import opened Edits
  import opened Fdt
  import opened FdtRo
  import opened FdtRw
  import opened FdtRwBlocks

  /** A complete blob of version 16 or later: its blocks are inside it, in any order. */
  predicate Complete(h: Header, m: bytes, v: View, rsv: seq<Rsv>) {
    && Legible(h, m, v) && HeaderError(h) == 0 && h.magic == FDT_MAGIC
    && Used(h) <= h.totalsize && h.offRsv <= h.totalsize
    && Reserves(m[h.offRsv..h.totalsize], rsv)
    && (h.version >= 0x11 ==> v.s == Ser(v.toks) && h.sizeStruct == |v.s|)
    && (forall i :: 0 <= i < |v.toks| ==> (v.toks[i].TFin? <==> i + 1 == |v.toks|))
  }

  /** The walk that finds the size of the structure block of a blob older than version 17. */
  method StructSize(fdt: Blob) returns (size: int)
    requires fdt.Readable()
    requires forall i :: 0 <= i < |fdt.v.toks| ==> (fdt.v.toks[i].TFin? <==> i + 1 == |fdt.v.toks|)
    ensures size == |Ser(fdt.v.toks)|
  {
    hide Ser, Off, TagAt, Region, Tab, Flatten, Named, Wf, Abs;
    ghost var v, k := fdt.v, 0;
    size := 0;
    OffZero(v.toks);
    NonEmpty(v);
    while true
      invariant k < |v.toks| && size == Off(v.toks, k)
      decreases |v.toks| - k
    {
      TokenCheck(v, k);
      var tag: u32;
      tag, size := NextTag(fdt, size);
      k := k + 1;
      if tag == FDT_END { break; }
    }
    OffAll(v.toks);
  }

  lemma NonEmpty(v: View)
    requires v.Ok()
    ensures |v.toks| > 0 && v.toks[0].TBegin?
  {
  }

  lemma OffAll(ts: seq<Token>)
    ensures Off(ts, |ts|) == |Ser(ts)|
  {
    assert ts[..|ts|] == ts;
  }

  /** The view of an opened blob: exactly its tokens. */
  function Trimmed(v: View): View { v.(s := Ser(v.toks)) }

  lemma TrimmedOk(v: View)
    requires v.Ok()
    ensures Trimmed(v).Ok() && |Ser(v.toks)| <= |v.s|
  {
  }

  /** Where the blocks of a complete blob are. */
  lemma Contents(h: Header, m: bytes, v: View, rsv: seq<Rsv>)
    requires Complete(h, m, v, rsv)
    ensures h.offRsv + 16 * |rsv| + 16 <= h.totalsize <= |m| < TWO31
    ensures Reserves(m[h.offRsv..h.offRsv + 16 * |rsv| + 16], rsv)
    ensures h.offStruct + |Ser(v.toks)| <= h.totalsize
    ensures m[h.offStruct..h.offStruct + |Ser(v.toks)|] == Ser(v.toks)
    ensures Used(h) <= h.totalsize && m[h.offStrings..Used(h)] == v.tab && v.Ok()
  {
    hide Ser, View.Ok, Reserves, Complete, Legible, Region, Tab, Used;
    CompleteParts(h, m, v, rsv);
    MapPrefix(m, h.offRsv, h.totalsize, rsv);
    TokensInMemory(h, m, v);
  }

  lemma TokensInMemory(h: Header, m: bytes, v: View)
    requires Legible(h, m, v) && v.Ok()
    ensures h.offStruct + |Ser(v.toks)| <= h.totalsize <= |m|
    ensures m[h.offStruct..h.offStruct + |Ser(v.toks)|] == Ser(v.toks)
  {
    hide Ser, View.Ok, Legible;
    SerPrefix(v);
    NotEmpty(v);
    InMemory(h, m, v, 0, |Ser(v.toks)|);
    RegionEnd(h, m, v);
  }

  lemma CompleteParts(h: Header, m: bytes, v: View, rsv: seq<Rsv>)
    requires Complete(h, m, v, rsv)
    ensures Legible(h, m, v) && v.Ok() && h.offRsv <= h.totalsize <= |m| < TWO31
    ensures Reserves(m[h.offRsv..h.totalsize], rsv) && Used(h) <= h.totalsize && m[h.offStrings..Used(h)] == v.tab
  {
    hide Ser, View.Ok, Reserves;
  }

  /** The reserve map at the front of a longer stretch. */
  lemma MapPrefix(m: bytes, o: nat, e: nat, rsv: seq<Rsv>)
    requires o <= e <= |m| && Reserves(m[o..e], rsv)
    ensures o + 16 * |rsv| + 16 <= e && Reserves(m[o..o + 16 * |rsv| + 16], rsv)
  {
    hide Reserves, RsvBytes, BigEndian;
    var a, n := m[o..e], 16 * |rsv| + 16;
    ReservesAt(a, rsv, |rsv|);
    SliceCut(m, o, e, n);
    MapBytes(a, a[..n], rsv);
  }

  lemma SerPrefix(v: View)
    requires v.Ok()
    ensures |Ser(v.toks)| <= |v.s| && v.s[0..|Ser(v.toks)|] == Ser(v.toks)
  {
  }

  lemma NotEmpty(v: View)
    requires v.Ok()
    ensures |v.s| > 0
  {
    TokenCheck(v, 0);
  }

  lemma RegionEnd(h: Header, m: bytes, v: View)
    requires Legible(h, m, v) && |v.s| > 0
    ensures h.offStruct + |v.s| <= h.totalsize <= |m|
  {
    hide View.Ok, Tab;
  }

  /** `fdt_move`, when the blocks are in order already. */
  lemma MovedBlob(h: Header, m: bytes, v: View, rsv: seq<Rsv>, h': Header, m': bytes, bufsize: nat)
    requires Complete(h, m, v, rsv) && h.totalsize <= bufsize <= |m'| < TWO31
    requires Ordered(h, 16 * |rsv| + 16, |Ser(v.toks)|)
    requires m'[..h.totalsize] == m[..h.totalsize]
    requires h' == h.(version := 17, sizeStruct := |Ser(v.toks)|, totalsize := bufsize)
    ensures Editable(h', m', Trimmed(v), rsv)
  {
    hide Ser, View.Ok, Reserves, Editable, Complete, Ordered;
    CompleteHeader(h, m, v, rsv);
    Contents(h, m, v, rsv);
    TrimmedOk(v);
    OrderedBounds(h, h', 16 * |rsv| + 16);
    CopiedBlocks(m, m', h.totalsize, h.offRsv, 16 * |rsv| + 16, h.offStruct, |Ser(v.toks)|, h.offStrings, Used(h), rsv);
    BlocksFrom(h', m', Trimmed(v), rsv);
    EditableBlocks(h', m', Trimmed(v), rsv);
  }

  lemma OrderedBounds(h: Header, h': Header, n: nat)
    requires h' == h.(version := 17, sizeStruct := h'.sizeStruct, totalsize := h'.totalsize)
    requires Ordered(h, n, h'.sizeStruct) && h'.totalsize >= h.totalsize && n >= 16
    ensures h.offRsv + n <= h.offStruct && h.offStruct + h'.sizeStruct <= h.offStrings <= Used(h) <= h.totalsize
    ensures Ordered(h', 16, h'.sizeStruct)
  {
  }

  /** Three blocks in memory that was copied. */
  lemma CopiedBlocks(m: bytes, m': bytes, n: nat, r: nat, k: nat, o: nat, s: nat, t: nat, u: nat, rsv: seq<Rsv>)
    requires n <= |m| && n <= |m'| && m'[..n] == m[..n] && r + k <= o && o + s <= t <= u <= n
    requires k == 16 * |rsv| + 16 && Reserves(m[r..r + k], rsv)
    ensures m'[o..o + s] == m[o..o + s] && m'[t..u] == m[t..u] && Reserves(m'[r..o], rsv)
  {
    hide Reserves;
    SamePrefix(m, m', n, o, o + s);
    SamePrefix(m, m', n, t, u);
    SamePrefix(m, m', n, r, r + k);
    SliceCut(m', r, o, k);
    ReservesPrefix(m[r..r + k], m'[r..o], rsv);
  }

  lemma CompleteHeader(h: Header, m: bytes, v: View, rsv: seq<Rsv>)
    requires Complete(h, m, v, rsv)
    ensures h.magic == FDT_MAGIC && h.lastComp <= 0x11 && Legible(h, m, v)
    ensures h.version >= 0x11 ==> h.sizeStruct == |Ser(v.toks)|
    ensures forall i :: 0 <= i < |v.toks| ==> (v.toks[i].TFin? <==> i + 1 == |v.toks|)
  {
  }

  /** The blocks put in order somewhere and moved to the start of the buffer. */
  lemma ReorderedBlob(h: Header, m: bytes, v: View, rsv: seq<Rsv>, h': Header, m': bytes, bufsize: nat)
    requires Complete(h, m, v, rsv)
    requires var n := 40 + (16 * |rsv| + 16) + |Ser(v.toks)| + h.sizeStrings; n <= bufsize <= |m'| < TWO31
    requires h'.magic == FDT_MAGIC && h'.totalsize == bufsize && h'.version == 17 && h'.lastComp == 16
    requires h'.offRsv == 40 && h'.offStruct == 40 + (16 * |rsv| + 16) && h'.sizeStruct == |Ser(v.toks)|
    requires h'.offStrings == h'.offStruct + |Ser(v.toks)| && h'.sizeStrings == h.sizeStrings
    requires h.offRsv + (16 * |rsv| + 16) <= |m| && h.offStruct + |Ser(v.toks)| <= |m| && Used(h) <= |m|
    requires m'[40..Used(h')] == m[h.offRsv..h.offRsv + (16 * |rsv| + 16)] + m[h.offStruct..h.offStruct + |Ser(v.toks)|]
                                 + m[h.offStrings..Used(h)]
    ensures Editable(h', m', Trimmed(v), rsv)
  {
    hide Ser, View.Ok, Reserves, Editable, Complete;
    Contents(h, m, v, rsv);
    TrimmedOk(v);
    PackedEditable(h', m', Trimmed(v), rsv, m[h.offRsv..h.offRsv + (16 * |rsv| + 16)]);
  }

  /** What an opened blob looks like. */
  ghost predicate Opened(dst: Blob, v: View, rsv: seq<Rsv>, bufsize: nat)
    reads dst, dst.buf
  {
    dst.Valid() && dst.v == Trimmed(v) && dst.rsv == rsv && dst.h.version == 17 && dst.h.totalsize == bufsize
  }

  /** The size of the blob with its blocks put in order. */
  function NewSize(h: Header, v: View, rsv: seq<Rsv>): nat {
    40 + (16 * |rsv| + 16) + |Ser(v.toks)| + h.sizeStrings
  }

  /** The room `fdt_open_into` needs: in place, a blob with its blocks out of order is rebuilt behind itself. */
  function RoomNeeded(h: Header, v: View, rsv: seq<Rsv>, inPlace: bool): nat {
    if Ordered(h, 16 * |rsv| + 16, |Ser(v.toks)|) then h.totalsize
    else if inPlace then h.totalsize + NewSize(h, v, rsv)
    else NewSize(h, v, rsv)
  }

  /** Where the blocks end in the blob that it makes. */
  function UsedOnceOpen(h: Header, v: View, rsv: seq<Rsv>): nat {
    if Ordered(h, 16 * |rsv| + 16, |Ser(v.toks)|) then Used(h) else NewSize(h, v, rsv)
  }

  lemma PackedMoved(dm: bytes, tmp: nat, r: bytes, s: bytes, t: bytes, m2: bytes)
    requires var n := 40 + |r| + |s| + |t|; tmp + n <= |dm| && m2 == Moved(Packed(dm, tmp + 40, r, s, t), 0, tmp, n)
    ensures |m2| == |dm| && m2[40..40 + |r| + |s| + |t|] == r + s + t
    ensures Be32(Packed(dm, tmp + 40, r, s, t), tmp + 28) == Be32(dm, tmp + 28)
  {
    hide Cell;
    var n, m1 := 40 + |r| + |s| + |t|, Packed(dm, tmp + 40, r, s, t);
    PackedAt(dm, tmp + 40, r, s, t);
    MovedParts(m1, 0, tmp, n);
    assert m2[40..n] == m2[0..n][40..n];
    assert m1[tmp..tmp + n][40..n] == m1[tmp + 40..tmp + n];
    SamePrefix(dm, m1, tmp + 40, tmp + 28, tmp + 32);
  }

  /** Packing at `tmp`, then moving the result to the start of the buffer. */
  method Rebuild(fdt: Blob, dst: Blob, bufsize: nat, tmp: nat, rsvSize: nat, structSize: nat)
    requires fdt.Sane() && Complete(fdt.h, fdt.buf[..], fdt.v, fdt.rsv) && bufsize <= dst.buf.Length < TWO31
    requires rsvSize == 16 * |fdt.rsv| + 16 && structSize == |Ser(fdt.v.toks)|
    requires tmp + NewSize(fdt.h, fdt.v, fdt.rsv) <= bufsize
    requires if dst == fdt then tmp == fdt.h.totalsize else dst.buf != fdt.buf
    modifies dst, dst.buf
    ensures Opened(dst, old(fdt.v), old(fdt.rsv), bufsize)
    ensures Used(dst.h) == NewSize(old(fdt.h), old(fdt.v), old(fdt.rsv))
    ensures dst.h.bootCpu == if dst == fdt
      then Be32(old(fdt.buf[..]), old(fdt.h.totalsize) + 28) else old(fdt.h.bootCpu)
  {
    hide Ser, View.Ok, Reserves, Editable, Complete, Packed, PackedInto, Legible, Moved, Be32, Disjoint, Trimmed,
      Ordered;
    ghost var h, m, dm, v, rsv := fdt.h, fdt.buf[..], dst.buf[..], fdt.v, fdt.rsv;
    Contents(h, m, v, rsv);
    RebuildBytes(fdt, dst, bufsize, tmp, rsvSize, structSize);
    dst.v, dst.rsv := Trimmed(v), rsv;
    RebuiltBlob(h, m, v, rsv, dm, tmp, dst.h, dst.buf[..], bufsize);
  }

  /** The header of a rebuilt blob. */
  function RebuiltHeader(h: Header, bufsize: nat, rsvSize: nat, structSize: nat, boot: u32): Header
    requires bufsize < TWO31 && 40 + rsvSize + structSize <= bufsize
  {
    h.(magic := FDT_MAGIC, totalsize := bufsize, version := 17, lastComp := 16, bootCpu := boot, offRsv := 40,
       offStruct := 40 + rsvSize, sizeStruct := structSize, offStrings := 40 + rsvSize + structSize)
  }

  /** The bytes and the header of the rebuilt blob. */
  method RebuildBytes(fdt: Blob, dst: Blob, bufsize: nat, tmp: nat, rsvSize: nat, structSize: nat)
    requires fdt.h.totalsize <= fdt.buf.Length < TWO31 && bufsize <= dst.buf.Length < TWO31
    requires fdt.h.offRsv + rsvSize <= fdt.h.totalsize && fdt.h.offStruct + structSize <= fdt.h.totalsize
    requires Used(fdt.h) <= fdt.h.totalsize && tmp + 40 + rsvSize + structSize + fdt.h.sizeStrings <= bufsize
    requires if dst == fdt then tmp == fdt.h.totalsize else dst.buf != fdt.buf
    modifies dst`h, dst.buf
    ensures Packable(old(fdt.h), old(fdt.buf[..]), rsvSize, structSize, old(dst.buf[..]), tmp)
    ensures var p := PackedInto(old(fdt.h), old(fdt.buf[..]), rsvSize, structSize, old(dst.buf[..]), tmp);
      && dst.buf[..] == Moved(p, 0, tmp, 40 + rsvSize + structSize + old(fdt.h.sizeStrings))
      && dst.h == RebuiltHeader(old(fdt.h), bufsize, rsvSize, structSize,
                                if dst == fdt then Be32(p, tmp + 28) else old(fdt.h.bootCpu))
  {
    hide Packed, PackedInto, Moved, Be32, Disjoint;
    Beyond(fdt.h, tmp, rsvSize, structSize);
    var newsize, boot := 40 + rsvSize + structSize + fdt.h.sizeStrings, fdt.h.bootCpu;
    var nh := Packblocks(fdt, dst.buf, tmp, rsvSize, structSize);
    if dst == fdt { boot := Fdt32(dst, tmp + 28); }
    Memmove(dst.buf, 0, tmp, newsize);
    dst.h := nh.(magic := FDT_MAGIC, totalsize := bufsize, version := 17, lastComp := 16, bootCpu := boot);
  }

  lemma RebuiltBlob(h: Header, m: bytes, v: View, rsv: seq<Rsv>, dm: bytes, tmp: nat, h': Header, m': bytes,
                    bufsize: nat)
    requires Complete(h, m, v, rsv)
    requires tmp + NewSize(h, v, rsv) <= bufsize <= |dm| < TWO31
    requires Packable(h, m, 16 * |rsv| + 16, |Ser(v.toks)|, dm, tmp)
    requires h' == RebuiltHeader(h, bufsize, 16 * |rsv| + 16, |Ser(v.toks)|, h'.bootCpu)
    requires var p := PackedInto(h, m, 16 * |rsv| + 16, |Ser(v.toks)|, dm, tmp);
      m' == Moved(p, 0, tmp, NewSize(h, v, rsv))
    ensures Editable(h', m', Trimmed(v), rsv)
    ensures var p := PackedInto(h, m, 16 * |rsv| + 16, |Ser(v.toks)|, dm, tmp);
      Be32(p, tmp + 28) == Be32(dm, tmp + 28)
  {
    hide Ser, View.Ok, Reserves, Editable, Complete, Packed, Moved, Be32, Trimmed;
    PackedMoved(dm, tmp, m[h.offRsv..h.offRsv + (16 * |rsv| + 16)], m[h.offStruct..h.offStruct + |Ser(v.toks)|],
                m[h.offStrings..Used(h)], m');
    ReorderedBlob(h, m, v, rsv, h', m', bufsize);
  }

  /** Behind the old blob nothing is overwritten. */
  lemma Beyond(h: Header, tmp: nat, rsvSize: nat, structSize: nat)
    ensures h.offRsv + rsvSize <= h.totalsize <= tmp && h.offStruct + structSize <= h.totalsize && Used(h) <= tmp ==>
      && Disjoint(tmp + 40, rsvSize, h.offStruct, structSize)
      && Disjoint(tmp + 40, rsvSize, h.offStrings, h.sizeStrings)
      && Disjoint(tmp + 40 + rsvSize, structSize, h.offStrings, h.sizeStrings)
  {
  }

  /** `fdt_move` and the three header fields set after it. */
  method MoveInto(fdt: Blob, dst: Blob, bufsize: nat, structSize: nat) returns (err: int)
    requires fdt.Sane() && Complete(fdt.h, fdt.buf[..], fdt.v, fdt.rsv) && bufsize <= dst.buf.Length < TWO31
    requires structSize == |Ser(fdt.v.toks)| && Ordered(fdt.h, 16 * |fdt.rsv| + 16, structSize)
    requires dst == fdt || dst.buf != fdt.buf
    modifies dst, dst.buf
    ensures if bufsize < old(fdt.h.totalsize)
      then err == -ERR_NOSPACE && dst.h == old(dst.h) && dst.buf[..] == old(dst.buf[..]) && dst.v == old(dst.v)
        && dst.rsv == old(dst.rsv)
      else err == 0 && Opened(dst, old(fdt.v), old(fdt.rsv), bufsize) && dst.h.bootCpu == old(fdt.h.bootCpu)
           && Used(dst.h) == Used(old(fdt.h))
  {
    hide Ser, View.Ok, Reserves, Editable, Complete, Legible, Trimmed, Ordered, Written;
    ghost var h, m, v, rsv := fdt.h, fdt.buf[..], fdt.v, fdt.rsv;
    if fdt.h.totalsize > bufsize { return -ERR_NOSPACE; }
    CompleteHeader(h, m, v, rsv);
    Contents(h, m, v, rsv);
    CopyBlob(fdt, dst, bufsize, structSize);
    dst.v, dst.rsv := Trimmed(v), rsv;
    MovedBlob(h, m, v, rsv, dst.h, dst.buf[..], bufsize);
    return 0;
  }

  /** The bytes and the header of a blob, in another place, with the new sizes and version. */
  method CopyBlob(fdt: Blob, dst: Blob, bufsize: nat, structSize: nat)
    requires fdt.h.totalsize <= fdt.buf.Length && fdt.h.totalsize <= bufsize <= dst.buf.Length < TWO31
    requires structSize < TWO31
    modifies dst`h, dst.buf
    ensures dst.h == old(fdt.h).(version := 17, sizeStruct := structSize, totalsize := bufsize)
    ensures var n := old(fdt.h.totalsize); dst.buf[..][..n] == old(fdt.buf[..])[..n]
  {
    hide Written;
    var nh, n := fdt.h.(version := 17, sizeStruct := structSize, totalsize := bufsize), fdt.h.totalsize;
    MemmoveBetween(dst.buf, 0, fdt.buf, 0, n);
    CopiedFront(old(dst.buf[..]), old(fdt.buf[..]), dst.buf[..], n);
    dst.h := nh;
  }

  lemma CopiedFront(dm: bytes, m: bytes, r: bytes, n: nat)
    requires n <= |m| && n <= |dm| && r == Written(dm, 0, m[0..n])
    ensures |r| == |dm| && r[..n] == m[..n]
  {
    WrittenParts(dm, 0, m[0..n]);
    assert m[0..n] == m[..n] && r[0..n] == r[..n];
  }

  /** `fdt_open_into`: a blob that can be edited, with the same reserve map, strings and tree, of exactly `bufsize`
      bytes; in another buffer, or in place. The boot CPU survives except when the blob is rebuilt in place. */
  method OpenInto(fdt: Blob, dst: Blob, bufsize: nat) returns (err: int)
    requires fdt.Sane() && bufsize <= dst.buf.Length < TWO31
    requires HeaderError(fdt.h) == 0 ==> Complete(fdt.h, fdt.buf[..], fdt.v, fdt.rsv)
    requires dst == fdt || dst.buf != fdt.buf
    modifies dst, dst.buf
    ensures HeaderError(old(fdt.h)) != 0 ==> err == HeaderError(old(fdt.h))
    ensures err != 0 ==>
      dst.h == old(dst.h) && dst.buf[..] == old(dst.buf[..]) && dst.v == old(dst.v) && dst.rsv == old(dst.rsv)
    ensures HeaderError(old(fdt.h)) == 0 ==>
      if bufsize < RoomNeeded(old(fdt.h), old(fdt.v), old(fdt.rsv), dst == fdt) then err == -ERR_NOSPACE
      else err == 0 && Opened(dst, old(fdt.v), old(fdt.rsv), bufsize)
           && Used(dst.h) == UsedOnceOpen(old(fdt.h), old(fdt.v), old(fdt.rsv))
    ensures err == 0 && (dst != fdt || Ordered(old(fdt.h), 16 * |old(fdt.rsv)| + 16, |Ser(old(fdt.v.toks))|)) ==>
      dst.h.bootCpu == old(fdt.h.bootCpu)
  {
    hide Ser, Complete, Be32, Opened, HeaderError, Ordered, Misordered, View.Ok, Reserves;
    err := HeaderError(fdt.h);
    if err != 0 { return; }
    var rsvSize, structSize := CompleteSizes(fdt);
    Contents(fdt.h, fdt.buf[..], fdt.v, fdt.rsv);
    OrderTest(fdt.h, rsvSize, structSize);
    if !Misordered(fdt.h, rsvSize, structSize) {
      err := MoveInto(fdt, dst, bufsize, structSize);
      return;
    }
    var newsize := 40 + rsvSize + structSize + fdt.h.sizeStrings;
    if bufsize < newsize { return -ERR_NOSPACE; }
    var tmp := 0;
    if dst == fdt {
      tmp := fdt.h.totalsize;
      if tmp + newsize > bufsize { return -ERR_NOSPACE; }
    }
    Rebuild(fdt, dst, bufsize, tmp, rsvSize, structSize);
    return 0;
  }

  /** The sizes of reserve map and structure block. */
  method CompleteSizes(fdt: Blob) returns (rsvSize: nat, structSize: nat)
    requires fdt.Sane() && Complete(fdt.h, fdt.buf[..], fdt.v, fdt.rsv)
    ensures rsvSize == 16 * |fdt.rsv| + 16 && structSize == |Ser(fdt.v.toks)|
  {
    hide Ser, View.Ok, Reserves, Complete, Legible;
    ghost var h, m, v, rsv := fdt.h, fdt.buf[..], fdt.v, fdt.rsv;
    CompleteHeader(h, m, v, rsv);
    Contents(h, m, v, rsv);
    var num := NumMemRsv(fdt, m[h.offRsv..h.offRsv + 16 * |rsv| + 16], rsv);
    rsvSize := 16 * (num + 1);
    if fdt.h.version >= 17 { structSize := fdt.h.sizeStruct; } else { structSize := StructSize(fdt); }
  }
}
