/** fdt_rw.c: the reserve map, packing, and opening a blob for editing. */
module FdtRwBlocks {
  import opened Bytes
  import opened Strings
  import opened CString
  import opened Trees
  import opened Tokens
  import opened Lexer
  import opened Walk
  import opened Views
  import opened Edits
  import opened Fdt
  import opened FdtRo
  import opened FdtRw

  /** The entry at index `i` of a reserve map. */
  lemma {:induction false} ReservesAt(m: bytes, rs: seq<Rsv>, i: nat)
    requires Reserves(m, rs) && i <= |rs|
    ensures 16 * i + 16 <= |m|
    ensures i < |rs| ==> m[16 * i..16 * i + 16] == RsvBytes(rs[i]) && rs[i].size != 0
    ensures i == |rs| ==> m[16 * i + 8..16 * i + 16] == BigEndian(0, 8)
    decreases i
  {
    if i > 0 {
      ReservesAt(m[16..], rs[1..], i - 1);
      Sub(m, 16, m[16..], 16 * (i - 1), 16 * (i - 1) + 16);
      Sub(m, 16, m[16..], 16 * (i - 1) + 8, 16 * (i - 1) + 16);
    }
  }

  /** An entry with a size of zero ends the map, so only other entries are really added. */
  function Appended(rs: seq<Rsv>, r: Rsv): seq<Rsv> {
    if r.size != 0 then rs + [r] else rs
  }

  lemma {:induction false} ReservesInsert(m: bytes, rs: seq<Rsv>, r: Rsv)
    requires Reserves(m, rs)
    ensures 16 * |rs| <= |m|
    ensures Reserves(m[..16 * |rs|] + RsvBytes(r) + m[16 * |rs|..], Appended(rs, r))
    decreases |rs|
  {
    ReservesAt(m, rs, |rs|);
    var n := 16 * |rs|;
    var m' := m[..n] + RsvBytes(r) + m[n..];
    if rs == [] {
      assert m' == RsvBytes(r) + m;
      assert m'[16..] == m && m'[..16] == RsvBytes(r);
      assert m'[8..16] == BigEndian(r.size, 8);
      assert Appended(rs, r) == if r.size != 0 then [r] else [];
    } else {
      ReservesInsert(m[16..], rs[1..], r);
      assert m'[..16] == m[..16];
      assert m'[16..] == m[16..][..n - 16] + RsvBytes(r) + m[16..][n - 16..];
      assert Appended(rs, r)[1..] == Appended(rs[1..], r);
    }
  }

  lemma {:induction false} ReservesRemove(m: bytes, rs: seq<Rsv>, i: nat)
    requires Reserves(m, rs) && i < |rs|
    ensures 16 * i + 16 <= |m|
    ensures Reserves(m[..16 * i] + m[16 * i + 16..], rs[..i] + rs[i + 1..])
    decreases i
  {
    ReservesAt(m, rs, i);
    var m' := m[..16 * i] + m[16 * i + 16..];
    if i == 0 {
      assert m' == m[16..] && rs[..0] + rs[1..] == rs[1..];
    } else {
      ReservesRemove(m[16..], rs[1..], i - 1);
      assert m'[..16] == m[..16];
      assert m'[16..] == m[16..][..16 * (i - 1)] + m[16..][16 * (i - 1) + 16..];
      assert (rs[..i] + rs[i + 1..])[1..] == rs[1..][..i - 1] + rs[1..][i..];
    }
  }

  /** The same map in a bigger area. */
  lemma {:induction false} ReservesPrefix(m: bytes, m': bytes, rs: seq<Rsv>)
    requires Reserves(m, rs) && 16 * (|rs| + 1) <= |m'|
    requires 16 * (|rs| + 1) <= |m| && m'[..16 * (|rs| + 1)] == m[..16 * (|rs| + 1)]
    ensures Reserves(m', rs)
    decreases |rs|
  {
    var n := 16 * (|rs| + 1);
    SamePrefix(m, m', n, 0, 16);
    SamePrefix(m, m', n, 8, 16);
    if rs != [] {
      SamePrefix(m, m', n, 16, n);
      assert m[16..][..n - 16] == m[16..n] && m'[16..][..n - 16] == m'[16..n];
      ReservesPrefix(m[16..], m'[16..], rs[1..]);
    }
  }

  /** Reading a big-endian 64-bit number. */
  method Fdt64(fdt: Blob, i: nat) returns (w: u64)
    requires i + 8 <= fdt.buf.Length
    ensures w == Number(fdt.buf[..][i..i + 8])
  {
    assert fdt.buf[..][i..i + 8] == fdt.buf[i..i + 8];
    w := Number(fdt.buf[i..i + 8]);
  }

  /** `fdt_num_mem_rsv` counts the entries before the first one of size zero. */
  method NumMemRsv(fdt: Blob, ghost area: bytes, ghost rsv: seq<Rsv>) returns (n: nat)
    requires Reserves(area, rsv) && fdt.h.offRsv + |area| <= fdt.buf.Length
    requires fdt.buf[..][fdt.h.offRsv..fdt.h.offRsv + |area|] == area
    ensures n == |rsv|
  {
    hide Reserves, Number;
    n := 0;
    while true
      invariant n <= |rsv|
      decreases |rsv| - n
    {
      ReservesAt(area, rsv, n);
      Sub(fdt.buf[..], fdt.h.offRsv, area, 16 * n + 8, 16 * n + 16);
      ghost var cell := area[16 * n + 8..16 * n + 16];
      if n < |rsv| { RsvSize(area[16 * n..16 * n + 16], rsv[n]); }
      assert n < |rsv| ==> cell == area[16 * n..16 * n + 16][8..16] == BigEndian(rsv[n].size, 8);
      assert n == |rsv| ==> cell == BigEndian(0, 8);
      NumberOfBigEndian(if n < |rsv| then rsv[n].size else 0, 8);
      var size := Fdt64(fdt, fdt.h.offRsv + 16 * n + 8);
      if size == 0 { return; }
      n := n + 1;
    }
  }

  lemma RsvSize(b: bytes, r: Rsv)
    requires b == RsvBytes(r)
    ensures b[8..16] == BigEndian(r.size, 8)
  {
  }

  /** `fdt_splice_mem_rsv_`: the blocks after the map move. */
  method SpliceMemRsv(fdt: Blob, p: nat, oldn: nat, newn: nat) returns (err: int)
    requires Ordered(fdt.h, 16, fdt.h.sizeStruct) && fdt.h.totalsize <= fdt.buf.Length < TWO31
    requires fdt.h.offRsv <= p && p + 16 * oldn <= fdt.h.offStruct
    modifies fdt.buf, fdt`h
    ensures err == SpliceError(old(fdt.h), p, 16 * oldn, 16 * newn)
    ensures err != 0 ==> err == -ERR_NOSPACE && fdt.buf[..] == old(fdt.buf[..]) && fdt.h == old(fdt.h)
    ensures err == 0 ==>
      && fdt.buf[..] == Moved(old(fdt.buf[..]), p + 16 * newn, p + 16 * oldn, Used(old(fdt.h)) - p - 16 * oldn)
      && Shifted(old(fdt.h), fdt.h, 16 * oldn, 16 * newn) && Used(fdt.h) <= fdt.h.totalsize
  {
    hide Moved;
    var before, after := 16 * oldn, 16 * newn;
    err := Splice(fdt, p, before, after);
    if err != 0 { return; }
    var delta := after - before;
    fdt.h := fdt.h.(offStruct := fdt.h.offStruct + delta, offStrings := fdt.h.offStrings + delta);
  }

  /** The header after the reserve map grew or shrank. */
  predicate Shifted(h: Header, h': Header, before: nat, after: nat) {
    && h'.offStruct == h.offStruct - before + after
    && h'.offStrings == h.offStrings - before + after
    && h' == h.(offStruct := h'.offStruct, offStrings := h'.offStrings)
  }

  /** An edit of the reserve map leaves tree and strings alone. */
  lemma RsvEdit(h: Header, m: bytes, v: View, rsv: seq<Rsv>, h': Header, m': bytes,
                x: nat, n: nat, w: bytes, rsv': seq<Rsv>)
    requires Editable(h, m, v, rsv) && |m'| == |m|
    requires h.offRsv + x + n <= h.offStruct
    requires Edited(m, m', h.offRsv + x, h.offRsv + x + n, w, Used(h))
    requires Shifted(h, h', n, |w|) && Used(h') <= h'.totalsize && h'.offRsv + 16 <= h'.offStruct
    requires var a := m[h.offRsv..h.offStruct]; Reserves(a[..x] + w + a[x + n..], rsv')
    ensures Editable(h', m', v, rsv')
  {
    hide Ser, View.Ok, Reserves, Editable, Edited, Ordered, Shifted, Blocks;
    EditableBlocks(h, m, v, rsv);
    BlockParts(h, m, v, rsv);
    ShiftedBounds(h, h', n, |w|);
    BlocksOk(h, m, v, rsv);
    MovedStretches(m, m', h.offRsv, h.offStruct, h.offStruct + h.sizeStruct, h.offStrings, Used(h), x, n, w);
    BlocksFrom(h', m', v, rsv');
    EditableBlocks(h', m', v, rsv');
  }

  /** What an edit inside a stretch of memory does to it and to two stretches behind it. */
  lemma MovedStretches(m: bytes, m': bytes, r: nat, o: nat, e: nat, t: nat, u: nat, x: nat, n: nat, w: bytes)
    requires r <= o <= e <= t <= u <= |m| && x + n <= o - r && Edited(m, m', r + x, r + x + n, w, u)
    requires u - n + |w| <= |m'|
    ensures m'[r..o - n + |w|] == m[r..o][..x] + w + m[r..o][x + n..]
    ensures m'[o - n + |w|..e - n + |w|] == m[o..e] && m'[t - n + |w|..u - n + |w|] == m[t..u]
  {
    hide Edited;
    EditedAround(m, m', r + x, r + x + n, w, u, r, o);
    EditedAfter(m, m', r + x, r + x + n, w, u, o, e);
    EditedAfter(m, m', r + x, r + x + n, w, u, t, u);
    SliceCut(m, r, o, x);
    SliceCut(m, r, o, x + n);
  }

  /** Blocks that were in order still are. */
  lemma ShiftedBounds(h: Header, h': Header, before: nat, after: nat)
    requires Ordered(h, 16, h.sizeStruct) && Shifted(h, h', before, after) && before <= h.offStruct
    requires Used(h') <= h'.totalsize && h'.offRsv + 16 <= h'.offStruct
    ensures Ordered(h', 16, h'.sizeStruct) && h'.offRsv == h.offRsv && h'.offStruct == h.offStruct - before + after
    ensures h'.offStrings == h.offStrings - before + after && h'.sizeStrings == h.sizeStrings
    ensures h.offRsv <= h.offStruct <= h.offStruct + h.sizeStruct <= h.offStrings <= Used(h) <= h.totalsize
    ensures h'.totalsize == h.totalsize && h'.magic == h.magic && h'.version == h.version && h'.lastComp == h.lastComp
    ensures h'.sizeStruct == h.sizeStruct
  {
  }

  lemma TwoWrites(m1: bytes, m2: bytes, p: nat, a: bytes, b: bytes)
    requires |a| == 8 && |b| == 8 && p + 16 <= |m1|
    requires m2 == Written(Written(m1, p, a), p + 8, b)
    ensures |m2| == |m1| && m2[..p] == m1[..p] && m2[p + 16..] == m1[p + 16..] && m2[p..p + 16] == a + b
  {
    assert Written(m1, p, a) == m1[..p] + a + m1[p + 8..];
    assert m2 == m1[..p] + a + b + m1[p + 16..];
  }

  /** The reserve map of an editable blob lies before its structure block. */
  lemma MapInside(h: Header, m: bytes, v: View, rsv: seq<Rsv>)
    requires Editable(h, m, v, rsv)
    ensures h.offRsv + 16 * |rsv| + 16 <= h.offStruct <= Used(h) <= h.totalsize <= |m| < TWO31
    ensures Ordered(h, 16, h.sizeStruct) && Reserves(m[h.offRsv..h.offStruct], rsv)
  {
    hide Ser, View.Ok, Reserves, Editable;
    EditableBlocks(h, m, v, rsv);
    ReservesAt(m[h.offRsv..h.offStruct], rsv, |rsv|);
  }

  lemma AddedRsv(h: Header, m: bytes, v: View, rsv: seq<Rsv>, h': Header, m': bytes, r: Rsv)
    requires Editable(h, m, v, rsv)
    requires var p := h.offRsv + 16 * |rsv|;
      && p <= Used(h) && Used(h) + 16 <= h.totalsize
      && m' == Written(Written(Moved(m, p + 16, p, Used(h) - p), p, BigEndian(r.address, 8)), p + 8, BigEndian(r.size,
        8))
    requires Shifted(h, h', 0, 16) && Used(h') <= h'.totalsize
    ensures Editable(h', m', v, Appended(rsv, r))
  {
    hide Ser, View.Ok, Reserves, Editable, Edited, Moved, Written;
    MapInside(h, m, v, rsv);
    var p := h.offRsv + 16 * |rsv|;
    var m1 := Moved(m, p + 16, p, Used(h) - p);
    TwoWrites(m1, m', p, BigEndian(r.address, 8), BigEndian(r.size, 8));
    SpliceThenWrite(m, m1, m', p, p, 0, 16, Used(h));
    ReservesInsert(m[h.offRsv..h.offStruct], rsv, r);
    RsvEdit(h, m, v, rsv, h', m', 16 * |rsv|, 0, RsvBytes(r), Appended(rsv, r));
  }

  lemma RemovedRsv(h: Header, m: bytes, v: View, rsv: seq<Rsv>, h': Header, m': bytes, n: nat)
    requires Editable(h, m, v, rsv) && n < |rsv|
    requires var p := h.offRsv + 16 * n;
      p + 16 <= Used(h) <= |m| && m' == Moved(m, p, p + 16, Used(h) - p - 16)
    requires Shifted(h, h', 16, 0) && Used(h') <= h'.totalsize
    ensures Editable(h', m', v, rsv[..n] + rsv[n + 1..])
  {
    hide Ser, View.Ok, Reserves, Editable, Edited, Moved;
    MapInside(h, m, v, rsv);
    var p, area := h.offRsv + 16 * n, m[h.offRsv..h.offStruct];
    SpliceAway(m, m', p, 16, Used(h));
    ReservesRemove(area, rsv, n);
    assert area[..16 * n] + [] + area[16 * n + 16..] == area[..16 * n] + area[16 * n + 16..];
    RsvEdit(h, m, v, rsv, h', m', 16 * n, 16, [], rsv[..n] + rsv[n + 1..]);
  }

  /** `fdt_num_mem_rsv` on an editable blob. */
  method CountRsv(fdt: Blob) returns (n: nat)
    requires fdt.Valid()
    ensures n == |fdt.rsv|
  {
    hide Ser, View.Ok, Reserves, Editable;
    MapInside(fdt.h, fdt.buf[..], fdt.v, fdt.rsv);
    n := NumMemRsv(fdt, fdt.buf[..][fdt.h.offRsv..fdt.h.offStruct], fdt.rsv);
  }

  /** `fdt_add_mem_rsv`: a reserved range is added at the end of the map. */
  method AddMemRsv(fdt: Blob, address: u64, size: u64) returns (err: int)
    requires RwError(fdt.h) == 0 ==> fdt.Valid()
    modifies fdt.buf, fdt`h, fdt`rsv
    ensures RwError(old(fdt.h)) != 0 ==> err == RwError(old(fdt.h)) && fdt.h == old(fdt.h) && fdt.rsv == old(fdt.rsv)
    ensures RwError(old(fdt.h)) == 0 ==> fdt.Valid() && fdt.h.totalsize == old(fdt.h.totalsize)
    ensures RwError(old(fdt.h)) == 0 ==>
      if Used(old(fdt.h)) + 16 > fdt.h.totalsize
      then err == -ERR_NOSPACE && fdt.rsv == old(fdt.rsv) && fdt.h == Downgraded(old(fdt.h))
      else err == 0 && fdt.rsv == Appended(old(fdt.rsv), Rsv(address, size)) && Used(fdt.h) == Used(old(fdt.h)) + 16
  {
    hide Ser, View.Ok, Reserves, Editable, Moved, Written, HeaderError;
    err := RwCheckHeader(fdt);
    if err != 0 { return; }
    ghost var h, m := fdt.h, fdt.buf[..];
    MapInside(h, m, fdt.v, fdt.rsv);
    var n := CountRsv(fdt);
    var p := fdt.h.offRsv + 16 * n;
    err := SpliceMemRsv(fdt, p, 0, 1);
    if err != 0 { return; }
    Memcpy(fdt.buf, p, BigEndian(address, 8));
    Memcpy(fdt.buf, p + 8, BigEndian(size, 8));
    AddedRsv(h, m, fdt.v, fdt.rsv, fdt.h, fdt.buf[..], Rsv(address, size));
    fdt.rsv := Appended(fdt.rsv, Rsv(address, size));
  }

  /** `fdt_del_mem_rsv`. */
  method DelMemRsv(fdt: Blob, n: nat) returns (err: int)
    requires RwError(fdt.h) == 0 ==> fdt.Valid()
    modifies fdt.buf, fdt`h, fdt`rsv
    ensures RwError(old(fdt.h)) != 0 ==> err == RwError(old(fdt.h)) && fdt.h == old(fdt.h) && fdt.rsv == old(fdt.rsv)
    ensures RwError(old(fdt.h)) == 0 ==> fdt.Valid() && fdt.h.totalsize == old(fdt.h.totalsize)
    ensures RwError(old(fdt.h)) == 0 ==>
      if n >= |old(fdt.rsv)| then err == -ERR_NOTFOUND && fdt.rsv == old(fdt.rsv) && fdt.h == Downgraded(old(fdt.h))
      else err == 0 && fdt.rsv == old(fdt.rsv)[..n] + old(fdt.rsv)[n + 1..] && Used(fdt.h) == Used(old(fdt.h)) - 16
  {
    hide Ser, View.Ok, Reserves, Editable, Moved, HeaderError;
    err := RwCheckHeader(fdt);
    if err != 0 { return; }
    ghost var h, m := fdt.h, fdt.buf[..];
    MapInside(h, m, fdt.v, fdt.rsv);
    var num := CountRsv(fdt);
    if n >= num { return -ERR_NOTFOUND; }
    err := SpliceMemRsv(fdt, fdt.h.offRsv + 16 * n, 1, 0);
    RemovedRsv(h, m, fdt.v, fdt.rsv, fdt.h, fdt.buf[..], n);
    fdt.rsv := fdt.rsv[..n] + fdt.rsv[n + 1..];
  }

  predicate Disjoint(a: nat, n: nat, b: nat, k: nat) { a + n <= b || b + k <= a }

  /** Memory with three blocks one after the other at `d`. */
  function Packed(m: bytes, d: nat, r: bytes, s: bytes, t: bytes): (p: bytes)
    requires d + |r| + |s| + |t| <= |m|
    ensures |p| == |m|
  {
    m[..d] + (r + s + t) + m[d + |r| + |s| + |t|..]
  }

  lemma WrittenElsewhere(m: bytes, d: nat, w: bytes, x: nat, n: nat)
    requires d + |w| <= |m| && x + n <= |m| && Disjoint(d, |w|, x, n)
    ensures Written(m, d, w)[x..x + n] == m[x..x + n]
  {
  }

  lemma ThreeWrites(m: bytes, d: nat, r: bytes, s: bytes, t: bytes)
    requires d + |r| + |s| + |t| <= |m|
    ensures Written(Written(Written(m, d, r), d + |r|, s), d + |r| + |s|, t) == Packed(m, d, r, s, t)
  {
    var x := Written(m, d, r);
    assert Written(x, d + |r|, s) == m[..d] + r + s + m[d + |r| + |s|..];
    assert Packed(m, d, r, s, t) == m[..d] + r + s + t + m[d + |r| + |s| + |t|..];
  }

  /** The three blocks lie in `m`, and fit in `dm` from `base` on. */
  predicate Packable(h: Header, m: bytes, r: nat, s: nat, dm: bytes, base: nat) {
    && h.offRsv + r <= |m| && h.offStruct + s <= |m| && Used(h) <= |m|
    && base + 40 + r + s + h.sizeStrings <= |dm|
  }

  /** `dm` with the three blocks of `m` one after the other, 40 bytes behind `base`. */
  function PackedInto(h: Header, m: bytes, r: nat, s: nat, dm: bytes, base: nat): (p: bytes)
    requires Packable(h, m, r, s, dm, base)
    ensures |p| == |dm|
  {
    Packed(dm, base + 40, m[h.offRsv..h.offRsv + r], m[h.offStruct..h.offStruct + s], m[h.offStrings..Used(h)])
  }

  /** `fdt_packblocks_`: the three blocks are moved one after the other to byte 40 of the new place. When old and new
      share a buffer, no move may overwrite a block that is still to be moved. */
  method Packblocks(fdt: Blob, a: array<byte>, base: nat, rsvSize: nat, structSize: nat) returns (nh: Header)
    requires Packable(fdt.h, fdt.buf[..], rsvSize, structSize, a[..], base) && a.Length < TWO31
    requires a == fdt.buf ==>
      && Disjoint(base + 40, rsvSize, fdt.h.offStruct, structSize)
      && Disjoint(base + 40, rsvSize, fdt.h.offStrings, fdt.h.sizeStrings)
      && Disjoint(base + 40 + rsvSize, structSize, fdt.h.offStrings, fdt.h.sizeStrings)
    modifies a
    ensures a[..] == PackedInto(fdt.h, old(fdt.buf[..]), rsvSize, structSize, old(a[..]), base)
    ensures nh == fdt.h.(offRsv := 40, offStruct := 40 + rsvSize, sizeStruct := structSize,
                         offStrings := 40 + rsvSize + structSize)
  {
    hide Written, Packed, Disjoint;
    var h := fdt.h;
    var structOff := base + 40 + rsvSize;
    var stringsOff := structOff + structSize;
    MoveThree(a, base + 40, structOff, stringsOff, fdt.buf, h.offRsv, h.offStruct, h.offStrings,
              rsvSize, structSize, h.sizeStrings);
    nh := h.(offRsv := 40, offStruct := 40 + rsvSize, sizeStruct := structSize,
             offStrings := 40 + rsvSize + structSize);
  }

  /** The three moves. */
  method MoveThree(a: array<byte>, x: nat, y: nat, z: nat, b: array<byte>, p: nat, q: nat, r: nat, i: nat, j: nat,
                   k: nat)
    requires y == x + i && z == y + j && z + k <= a.Length && p + i <= b.Length && q + j <= b.Length
    requires r + k <= b.Length
    requires a == b ==> Disjoint(x, i, q, j) && Disjoint(x, i, r, k) && Disjoint(y, j, r, k)
    modifies a
    ensures a[..] == Packed(old(a[..]), x, old(b[..])[p..p + i], old(b[..])[q..q + j], old(b[..])[r..r + k])
  {
    hide Written, Packed, Disjoint;
    ghost var a0, b0 := a[..], b[..];
    MemmoveBetween(a, x, b, p, i);
    ghost var a1, b1 := a[..], b[..];
    MemmoveBetween(a, y, b, q, j);
    ghost var a2, b2 := a[..], b[..];
    MemmoveBetween(a, z, b, r, k);
    ThreeMoves(a0, a1, a2, a[..], b0, b1, b2, a == b, x, y, z, p, q, r, i, j, k);
  }

  lemma ThreeMoves(a0: bytes, a1: bytes, a2: bytes, a3: bytes, b0: bytes, b1: bytes, b2: bytes, same: bool,
                   x: nat, y: nat, z: nat, p: nat, q: nat, r: nat, i: nat, j: nat, k: nat)
    requires y == x + i && z == y + j && z + k <= |a0| && p + i <= |b0| && q + j <= |b0| == |b1| == |b2|
    requires r + k <= |b0|
    requires a1 == Written(a0, x, b0[p..p + i]) && a2 == Written(a1, y, b1[q..q + j])
    requires a3 == Written(a2, z, b2[r..r + k])
    requires if same then b0 == a0 && b1 == a1 && b2 == a2 else b1 == b0 && b2 == b0
    requires same ==> Disjoint(x, i, q, j) && Disjoint(x, i, r, k) && Disjoint(y, j, r, k)
    ensures a3 == Packed(a0, x, b0[p..p + i], b0[q..q + j], b0[r..r + k])
  {
    hide Written, Packed, Disjoint;
    if same {
      WrittenElsewhere(a0, x, b0[p..p + i], q, j);
      WrittenElsewhere(a0, x, b0[p..p + i], r, k);
      WrittenElsewhere(a1, y, b1[q..q + j], r, k);
    }
    ThreeWrites(a0, x, b0[p..p + i], b0[q..q + j], b0[r..r + k]);
  }

  /** The header of a blob without gaps. */
  function Tight(h: Header, n: nat): Header
    requires 40 + 16 * n + 16 + h.sizeStruct + h.sizeStrings < TWO32
  {
    h.(offRsv := 40, offStruct := 56 + 16 * n, offStrings := 56 + 16 * n + h.sizeStruct,
       totalsize := 56 + 16 * n + h.sizeStruct + h.sizeStrings)
  }

  /** Blocks that were put next to each other make an editable blob. */
  lemma PackedEditable(h: Header, m: bytes, v: View, rsv: seq<Rsv>, area: bytes)
    requires h.totalsize <= |m| < TWO31 && h.magic == FDT_MAGIC && h.version >= 0x11 && h.lastComp <= 0x11
    requires v.Ok() && v.s == Ser(v.toks) && |area| == 16 * |rsv| + 16 && Reserves(area, rsv)
    requires h.offRsv == 40 && h.offStruct == 40 + |area| && h.sizeStruct == |v.s|
    requires h.offStrings == h.offStruct + |v.s| && h.sizeStrings == |v.tab| && Used(h) <= h.totalsize
    requires m[40..Used(h)] == area + v.s + v.tab
    ensures Editable(h, m, v, rsv)
  {
    hide Ser, View.Ok, Reserves, Editable, Ordered;
    InOrder(h, |area|);
    PackedSlices(m, Used(h), h.offStruct, h.offStrings, area, v.s, v.tab);
    BlocksThere(h, m, v, rsv, area);
  }

  lemma PackedSlices(m: bytes, u: nat, o: nat, e: nat, r: bytes, s: bytes, t: bytes)
    requires o == 40 + |r| && e == o + |s| && u == e + |t| && u <= |m| && m[40..u] == r + s + t
    ensures m[40..40 + |r|] == r && m[o..o + |s|] == s && m[e..e + |t|] == t
  {
    ThreeParts(m, 40, r, s, t);
  }

  lemma InOrder(h: Header, n: nat)
    requires h.offRsv == 40 && h.offStruct == 40 + n && h.offStrings == h.offStruct + h.sizeStruct
    requires Used(h) <= h.totalsize
    ensures Ordered(h, n, h.sizeStruct)
  {
  }

  lemma BlocksThere(h: Header, m: bytes, v: View, rsv: seq<Rsv>, area: bytes)
    requires h.totalsize <= |m| < TWO31 && h.magic == FDT_MAGIC && h.version >= 0x11 && h.lastComp <= 0x11
    requires v.Ok() && v.s == Ser(v.toks) && |area| >= 16 && Reserves(area, rsv)
    requires Ordered(h, |area|, h.sizeStruct) && h.offStruct == h.offRsv + |area|
    requires h.sizeStruct == |v.s| && h.sizeStrings == |v.tab|
    requires m[h.offRsv..h.offRsv + |area|] == area && m[h.offStruct..h.offStruct + |v.s|] == v.s
    requires m[h.offStrings..h.offStrings + |v.tab|] == v.tab
    ensures Editable(h, m, v, rsv)
  {
    hide Ser, View.Ok, Reserves, Editable;
    BlocksFrom(h, m, v, rsv);
    EditableBlocks(h, m, v, rsv);
  }

  lemma ThreeParts(m: bytes, d: nat, r: bytes, s: bytes, t: bytes)
    requires d + |r| + |s| + |t| <= |m| && m[d..d + |r| + |s| + |t|] == r + s + t
    ensures m[d..d + |r|] == r && m[d + |r|..d + |r| + |s|] == s && m[d + |r| + |s|..d + |r| + |s| + |t|] == t
  {
    var w := r + s + t;
    assert w[0..|r|] == r && w[|r|..|r| + |s|] == s && w[|r| + |s|..|w|] == t;
    Sub(m, d, w, 0, |r|);
    Sub(m, d, w, |r|, |r| + |s|);
    Sub(m, d, w, |r| + |s|, |w|);
  }

  lemma PackedAt(m: bytes, d: nat, r: bytes, s: bytes, t: bytes)
    requires d + |r| + |s| + |t| <= |m|
    ensures Packed(m, d, r, s, t)[d..d + |r| + |s| + |t|] == r + s + t
    ensures Packed(m, d, r, s, t)[..d] == m[..d]
  {
  }

  /** `fdt_pack`: no gap after byte 40 and nothing behind the strings; the tree and the reserve map are the same. */
  method Pack(fdt: Blob) returns (err: int)
    requires RwError(fdt.h) == 0 ==> fdt.Valid()
    modifies fdt.buf, fdt`h
    ensures err == RwError(old(fdt.h))
    ensures err != 0 ==> fdt.h == old(fdt.h) && fdt.buf[..] == old(fdt.buf[..])
    ensures err == 0 ==> fdt.Valid()
    ensures err == 0 ==> 56 + 16 * |fdt.rsv| + old(fdt.h.sizeStruct) + old(fdt.h.sizeStrings) <= old(fdt.h.totalsize)
    ensures err == 0 ==> fdt.h == Tight(Downgraded(old(fdt.h)), |fdt.rsv|)
    ensures err == 0 ==>
      Movable(old(fdt.h), old(fdt.buf[..]), |fdt.rsv|) &&
      fdt.buf[..] == PackedBlocks(old(fdt.h), old(fdt.buf[..]), |fdt.rsv|)
  {
    hide Editable, HeaderError, Tight, Downgraded, PackedBlocks, Movable;
    err := RwCheckHeader(fdt);
    if err != 0 { return; }
    DowngradedSizes(old(fdt.h), old(fdt.buf[..]), |fdt.rsv|);
    PackChecked(fdt);
  }

  /** The blocks lie in memory, with `n` reserve entries and their terminator, and there is room for them at the
      start. */
  predicate Movable(h: Header, m: bytes, n: nat) {
    && h.offRsv + 16 * (n + 1) <= |m| && h.offStruct + h.sizeStruct <= |m| && Used(h) <= |m|
    && 56 + 16 * n + h.sizeStruct + h.sizeStrings <= |m|
  }

  /** Memory with the three blocks of a blob next to each other from byte 40 on. */
  function PackedBlocks(h: Header, m: bytes, n: nat): bytes
    requires Movable(h, m, n)
  {
    PackedInto(h, m, 16 * (n + 1), h.sizeStruct, m, 0)
  }

  /** The part of `fdt_pack` after the header check. */
  method PackChecked(fdt: Blob)
    requires fdt.Valid()
    modifies fdt.buf, fdt`h
    ensures fdt.Valid()
    ensures 56 + 16 * |fdt.rsv| + old(fdt.h.sizeStruct) + old(fdt.h.sizeStrings) <= old(fdt.h.totalsize)
    ensures fdt.h == Tight(old(fdt.h), |fdt.rsv|)
    ensures Movable(old(fdt.h), old(fdt.buf[..]), |fdt.rsv|)
      && fdt.buf[..] == PackedBlocks(old(fdt.h), old(fdt.buf[..]), |fdt.rsv|)
  {
    hide Editable, View.Ok, Reserves, Packed, Disjoint, Tight, Ordered, Movable, PackedBlocks;
    ghost var h, m := fdt.h, fdt.buf[..];
    MapInside(h, m, fdt.v, fdt.rsv);
    RoomToPack(h, m, |fdt.rsv|);
    var num := CountRsv(fdt);
    PackBlocks(fdt, num);
    PackedWhere(h, m, fdt.v, fdt.rsv, fdt.h, fdt.buf[..]);
  }

  /** The blocks of a blob put next to each other, with `n` reserve entries, and its size set. */
  method PackBlocks(fdt: Blob, n: nat)
    requires Movable(fdt.h, fdt.buf[..], n) && Ordered(fdt.h, 16 * (n + 1), fdt.h.sizeStruct)
    requires fdt.h.totalsize <= fdt.buf.Length < TWO31
    modifies fdt.buf, fdt`h
    ensures fdt.buf[..] == PackedBlocks(old(fdt.h), old(fdt.buf[..]), n)
    ensures 56 + 16 * n + old(fdt.h.sizeStruct) + old(fdt.h.sizeStrings) < TWO32 && fdt.h == Tight(old(fdt.h), n)
  {
    hide Packed, Disjoint;
    PackingInPlace(fdt.h, 16 * (n + 1));
    var nh := Packblocks(fdt, fdt.buf, 0, 16 * (n + 1), fdt.h.sizeStruct);
    fdt.h := nh;
    fdt.h := fdt.h.(totalsize := Used(fdt.h));
  }

  /** The blob after its blocks were moved. */
  lemma PackedWhere(h: Header, m: bytes, v: View, rsv: seq<Rsv>, h': Header, m': bytes)
    requires Editable(h, m, v, rsv) && Movable(h, m, |rsv|) && m' == PackedBlocks(h, m, |rsv|)
    requires 56 + 16 * |rsv| + h.sizeStruct + h.sizeStrings < TWO32 && h' == Tight(h, |rsv|)
    ensures Editable(h', m', v, rsv) && h'.totalsize <= |m'| < TWO31
  {
    hide View.Ok, Reserves, Packed, Editable;
    MapInside(h, m, v, rsv);
    PackedBlob(h, m, v, rsv, h', m');
  }

  /** Blocks in order can be packed where they are. */
  lemma RoomToPack(h: Header, m: bytes, n: nat)
    requires Ordered(h, 16, h.sizeStruct) && h.offRsv + 16 * n + 16 <= h.offStruct && h.totalsize <= |m|
    ensures Ordered(h, 16 * (n + 1), h.sizeStruct) && Movable(h, m, n)
    ensures 56 + 16 * n + h.sizeStruct + h.sizeStrings <= h.totalsize
  {
    hide Packed;
  }

  lemma DowngradedSizes(h: Header, m: bytes, n: nat)
    ensures var d := Downgraded(h);
      && d.sizeStruct == h.sizeStruct && d.sizeStrings == h.sizeStrings && d.totalsize == h.totalsize
      && (Movable(d, m, n) <==> Movable(h, m, n))
        && (Movable(h, m, n) ==> PackedBlocks(d, m, n) == PackedBlocks(h, m, n))
  {
    hide Packed;
  }

  /** Packing in place moves every block down, so nothing that is still to be moved is overwritten. */
  lemma PackingInPlace(h: Header, rsvSize: nat)
    requires Ordered(h, rsvSize, h.sizeStruct)
    ensures Disjoint(0 + 40, rsvSize, h.offStruct, h.sizeStruct)
    ensures Disjoint(0 + 40, rsvSize, h.offStrings, h.sizeStrings)
    ensures Disjoint(0 + 40 + rsvSize, h.sizeStruct, h.offStrings, h.sizeStrings)
  {
  }

  lemma PackedBlob(h: Header, m: bytes, v: View, rsv: seq<Rsv>, h': Header, m': bytes)
    requires Editable(h, m, v, rsv)
    requires h.offRsv + 16 * |rsv| + 16 <= h.offStruct && Used(h) <= h.totalsize <= |m| < TWO31
    requires Ordered(h, 16, h.sizeStruct)
    requires Movable(h, m, |rsv|) && m' == PackedBlocks(h, m, |rsv|)
    requires h' == Tight(h, |rsv|)
    ensures Editable(h', m', v, rsv)
  {
    hide Ser, View.Ok, Reserves, Editable, Packed;
    EditableBlocks(h, m, v, rsv);
    var n := 16 * |rsv| + 16;
    var area := m[h.offRsv..h.offRsv + n];
    assert area == m[h.offRsv..h.offStruct][..n];
    MapBytes(m[h.offRsv..h.offStruct], area, rsv);
    PackedAt(m, 40, area, v.s, v.tab);
    PackedEditable(h', m', v, rsv, area);
  }

  lemma MapBytes(m: bytes, area: bytes, rsv: seq<Rsv>)
    requires Reserves(m, rsv) && 16 * |rsv| + 16 <= |m| && area == m[..16 * |rsv| + 16]
    ensures Reserves(area, rsv)
  {
    hide Reserves;
    assert area[..16 * (|rsv| + 1)] == m[..16 * (|rsv| + 1)];
    ReservesPrefix(m, area, rsv);
  }

  /** Packing blocks that are packed already changes nothing. */
  lemma PackedAgain(m: bytes, p: bytes, r: bytes, s: bytes, t: bytes)
    requires 40 + |r| + |s| + |t| <= |m| && p == Packed(m, 40, r, s, t)
    ensures p[40..40 + |r|] == r && p[40 + |r|..40 + |r| + |s|] == s && p[40 + |r| + |s|..40 + |r| + |s| + |t|] == t
    ensures Packed(p, 40, r, s, t) == p
  {
    PackedAt(m, 40, r, s, t);
    ThreeParts(p, 40, r, s, t);
    assert p[40 + |r| + |s| + |t|..] == m[40 + |r| + |s| + |t|..];
  }
}
