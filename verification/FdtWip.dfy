/** fdt_wip.c: edits that move nothing. */
module FdtWip {
  import opened Bytes
  import opened Strings
  import opened CString
  import opened Trees
  import opened Tokens
  import opened Lexer
  import opened Walk
  import opened Preorder
  import opened Views
  import opened Edits
  import opened Fdt
  import opened FdtRo
  import opened FdtRw
  import opened FdtRwNodes

  /** `n` FDT_NOP tokens. */
  function Nops(n: nat): (ts: seq<Token>)
    ensures |ts| == n && Quiet(ts)
  {
    seq(n, _ => TNop)
  }

  lemma {:induction false} NopsSer(n: nat)
    ensures |Ser(Nops(n))| == 4 * n
  {
    if n == 0 {
      SerNil();
    } else {
      assert Nops(n) == [TNop] + Nops(n - 1);
      SerAppend([TNop], Nops(n - 1));
      SerOne(TNop);
      NopsSer(n - 1);
    }
  }

  lemma NopsMore(n: nat)
    ensures Ser(Nops(n + 1)) == Ser(Nops(n)) + Word(FDT_NOP)
  {
    assert Nops(n + 1) == Nops(n) + [TNop];
    SerAppend(Nops(n), [TNop]);
    SerOne(TNop);
    assert Word(FDT_NOP) + [] == Word(FDT_NOP);
  }

  /** `fdt_nop_region_`: cell by cell, so a length that is not a multiple of four is rounded up. */
  method NopRegion(a: array<byte>, start: nat, len: nat) returns (ghost n: nat)
    requires start + Align4(len) <= a.Length
    modifies a
    ensures 4 * n == Align4(len) == |Ser(Nops(n))|
    ensures a[..] == Written(old(a[..]), start, Ser(Nops(n)))
  {
    hide Word, Ser, Written, Nops, Align4;
    ghost var m := a[..];
    var p := start;
    n := 0;
    NoNops(m, start);
    while p < start + len
      invariant p == start + 4 * n <= start + Align4(len)
      invariant |Ser(Nops(n))| == 4 * n && a[..] == Written(m, start, Ser(Nops(n)))
      decreases start + len - p
    {
      CellsLeft(n, len);
      Memcpy(a, p, Word(FDT_NOP));
      NopsMore(n);
      WrittenNext(m, start, Ser(Nops(n)), Word(FDT_NOP));
      p := p + 4;
      n := n + 1;
    }
    CellsLeft(n, len);
  }

  /** Cells of a stretch that is rounded up. */
  lemma CellsLeft(n: nat, len: nat)
    ensures 4 * n < len ==> 4 * n + 4 <= Align4(len)
    ensures len <= 4 * n <= Align4(len) ==> 4 * n == Align4(len)
  {
    hide Align4;
    Align4Div(len);
    var q := (len + 3) / 4;
    assert Align4(len) == 4 * q && len <= 4 * q <= len + 3;
  }

  lemma NoNops(m: bytes, start: nat)
    requires start <= |m|
    ensures Ser(Nops(0)) == [] && Written(m, start, []) == m
  {
    SerNil();
    assert Nops(0) == [];
  }

  lemma WrittenNext(m: bytes, d: nat, w: bytes, x: bytes)
    requires d + |w| + |x| <= |m|
    ensures Written(Written(m, d, w), d + |w|, x) == Written(m, d, w + x)
  {
  }

  /** Overwriting a stretch with as many bytes is an edit that moves nothing. */
  lemma WrittenEdit(m: bytes, d: nat, w: bytes, u: nat)
    requires d + |w| <= u <= |m|
    ensures Edited(m, Written(m, d, w), d, d + |w|, w, u)
  {
    WrittenParts(m, d, w);
    SameSuffix(m, Written(m, d, w), d + |w|, d + |w|, u);
  }

  /** The tokens of a property, or of a subtree, became as many bytes of FDT_NOP. */
  predicate Nopped(ts: seq<Token>, c: Cut) {
    && c.k <= c.j <= |ts| && Quiet(c.ins) && |Ser(c.ins)| == Off(ts, c.j) - Off(ts, c.k)
  }

  /** `fdt_nop_property` leaves the tree that `fdt_delprop` leaves, but every token that stays keeps its offset. */
  method NopProperty(fdt: Blob, nodeoffset: int, name: bytes, ghost l: Loc) returns (err: int, ghost c: Cut)
    requires fdt.Valid() && fdt.v.Handle(nodeoffset, l) && nodeoffset < TWO31
    modifies fdt.buf, fdt`v
    ensures fdt.Valid()
    ensures NodeCheck(old(fdt.v.s), nodeoffset) < 0 ==> err == -ERR_BADOFFSET && fdt.v == old(fdt.v)
    ensures NodeCheck(old(fdt.v.s), nodeoffset) >= 0 ==>
      var q := FindProp(l.node.props, name, 0);
      if q == |l.node.props| then err == -ERR_NOTFOUND && fdt.v == old(fdt.v)
      else err == 0 && Regrown(old(fdt.v), fdt.v, c, nodeoffset, WithProps(l, Removed(l.node.props, q)))
           && Nopped(old(fdt.v.toks), c)
  {
    hide Ser, Off, Abs, Flatten, Whole, View.Ok, Editable, Legible, Regrown, Align4, Written, Edited, NodeCheck,
      View.PropAt;
    ghost var h, m, v, q := fdt.h, fdt.buf[..], fdt.v, FindProp(l.node.props, name, 0);
    c := Cut(0, 0, []);
    ViewOfBlob(fdt);
    var prop, len := GetPropertyNamelen(fdt, nodeoffset, name, l);
    if prop < 0 { return len, c; }
    PropSpan(h, m, v, fdt.rsv, prop, l, q);
    InsideUsed(h, m, v, fdt.rsv);
    AlignTwelve(len);
    ghost var n := NopRegion(fdt.buf, fdt.h.offStruct + prop, len + 12);
    fdt.v, c := NoppedProp(h, m, v, fdt.rsv, fdt.buf[..], l, q, prop, n);
    return 0, c;
  }

  lemma AlignTwelve(len: nat)
    ensures Align4(len + 12) == 12 + Align4(len)
  {
    if len > 0 {
      assert Align4(len + 12) == 4 + Align4(len + 8);
      assert Align4(len + 8) == 4 + Align4(len + 4);
      assert Align4(len + 4) == 4 + Align4(len);
    } else {
      assert Align4(12) == 4 + Align4(8) && Align4(8) == 4 + Align4(4);
    }
  }

  lemma InsideUsed(h: Header, m: bytes, v: View, rsv: seq<Rsv>)
    requires Editable(h, m, v, rsv)
    ensures h.offStruct + h.sizeStruct <= Used(h) <= h.totalsize <= |m| && h.sizeStruct == |v.s| < TWO31
  {
    hide View.Ok, Reserves, Editable, Ser;
    EditableBlocks(h, m, v, rsv);
  }

  lemma NoppedProp(h: Header, m: bytes, v: View, rsv: seq<Rsv>, m': bytes, l: Loc, q: nat, prop: nat, n: nat)
    returns (v': View, c: Cut)
    requires Editable(h, m, v, rsv) && v.PropAt(prop, l, q)
    requires 4 * n == 12 + Align4(|l.node.props[q].value|)
    requires h.offStruct + prop + 4 * n <= |m| && |Ser(Nops(n))| == 4 * n
    requires m' == Written(m, h.offStruct + prop, Ser(Nops(n)))
    ensures Editable(h, m', v', rsv) && Nopped(v.toks, c)
    ensures forall off :: v.NodeAt(off, l) ==> Regrown(v, v', c, off, WithProps(l, Removed(l.node.props, q)))
  {
    hide Off, Editable, Align4, Written, Edited, Regrown, TokBytes, Ser, Whole, Nops;
    var k: nat :| v.Holds(k, l, q) && prop == Off(v.toks, k);
    PropExtent(h, m, v, rsv, k, l, q);
    InsideUsed(h, m, v, rsv);
    OffStep(v.toks, k);
    c := Cut(k, k + 1, Nops(n));
    WrittenEdit(m, h.offStruct + prop, Ser(Nops(n)), Used(h));
    v' := ErasedPropView(h, m, v, rsv, h, m', l, q, k, Nops(n));
  }

  /** `fdt_nop_node` leaves the tree that `fdt_del_node` leaves, but every token that stays keeps its offset. */
  method NopNode(fdt: Blob, nodeoffset: int, ghost l: Loc) returns (err: int, ghost c: Cut)
    requires fdt.Valid() && fdt.v.Handle(nodeoffset, l) && 0 <= nodeoffset < TWO31
    modifies fdt.buf, fdt`v
    ensures err != 0 || l.ctx.In? ==> fdt.Valid()
    ensures NodeCheck(old(fdt.v.s), nodeoffset) < 0 ==> err == -ERR_BADOFFSET && fdt.v == old(fdt.v)
    ensures NodeCheck(old(fdt.v.s), nodeoffset) >= 0 ==>
      err == 0 && Nopped(old(fdt.v.toks), c)
      && if l.ctx.In? then fdt.v.tree == Whole(Without(l)) && NodeErased(old(fdt.v), fdt.v, c, nodeoffset, l)
         else c.k == 0 && Rootless(fdt.h, fdt.buf[..], c.ins + old(fdt.v.toks)[c.j..], old(fdt.v.tab), fdt.rsv)
  {
    hide Ser, Off, Abs, Flatten, Whole, View.Ok, Editable, Legible, NodeErased, Align4, Written, Edited, NodeCheck,
      View.NodeAt, View.EndAt;
    ghost var h, m, v := fdt.h, fdt.buf[..], fdt.v;
    c := Cut(0, 0, []);
    ViewOfBlob(fdt);
    var endoffset := NodeEndOffset(fdt, nodeoffset, l);
    if endoffset < 0 { return endoffset, c; }
    ghost var k := OpenToken(v, nodeoffset, l);
    ghost var j := CloseToken(v, endoffset, l);
    InsideUsed(h, m, v, fdt.rsv);
    WholeCells(v, k, j);
    ghost var n := NopRegion(fdt.buf, fdt.h.offStruct + nodeoffset, endoffset - nodeoffset);
    NopsSer(n);
    err, c := 0, Cut(k, j, Nops(n));
    if l.ctx.In? {
      fdt.v, c := NoppedNode(h, m, v, fdt.rsv, fdt.buf[..], l, k, j, n);
    } else {
      NoppedRoot(h, m, v, fdt.rsv, fdt.buf[..], l, k, j, n);
    }
  }

  lemma WholeCells(v: View, k: nat, j: nat)
    requires v.Ok() && k <= |v.toks| && j <= |v.toks| && Off(v.toks, k) < Off(v.toks, j)
    ensures k < j && Align4(Off(v.toks, j) - Off(v.toks, k)) == Off(v.toks, j) - Off(v.toks, k)
  {
    hide Ser, Off, Abs, Flatten, Named;
    ClosesAfter(v, k, j, Loc(Top, v.tree));
    OffAligned(v.toks, k);
    OffAligned(v.toks, j);
    AlignedSum(Off(v.toks, k), Off(v.toks, j) - Off(v.toks, k));
    AlignIs(Off(v.toks, j) - Off(v.toks, k), Off(v.toks, j) - Off(v.toks, k));
  }

  lemma NoppedNode(h: Header, m: bytes, v: View, rsv: seq<Rsv>, m': bytes, l: Loc, k: nat, j: nat, n: nat)
    returns (v': View, c: Cut)
    requires Editable(h, m, v, rsv) && v.Opens(k, l) && v.Closes(j, l) && l.ctx.In? && k < j <= |v.toks|
    requires 4 * n == Off(v.toks, j) - Off(v.toks, k) && Off(v.toks, j) <= |v.s| && |Ser(Nops(n))| == 4 * n
    requires h.offStruct + Off(v.toks, j) <= |m|
    requires m' == Written(m, h.offStruct + Off(v.toks, k), Ser(Nops(n)))
    ensures Editable(h, m', v', rsv) && Nopped(v.toks, c)
    ensures v'.tree == Whole(Without(l)) && NodeErased(v, v', c, Off(v.toks, k), l)
  {
    hide Off, Editable, Written, Edited, Regrown, Ser, Whole, Nops;
    InsideUsed(h, m, v, rsv);
    c := Cut(k, j, Nops(n));
    WrittenEdit(m, h.offStruct + Off(v.toks, k), Ser(Nops(n)), Used(h));
    v' := ErasedNodeView(h, m, v, rsv, h, m', l, k, j, Nops(n));
  }

  lemma NoppedRoot(h: Header, m: bytes, v: View, rsv: seq<Rsv>, m': bytes, l: Loc, k: nat, j: nat, n: nat)
    requires Editable(h, m, v, rsv) && v.Opens(k, l) && v.Closes(j, l) && l.ctx.Top? && k < j <= |v.toks|
    requires 4 * n == Off(v.toks, j) - Off(v.toks, k) && Off(v.toks, j) <= |v.s| && |Ser(Nops(n))| == 4 * n
    requires h.offStruct + Off(v.toks, j) <= |m|
    requires m' == Written(m, h.offStruct + Off(v.toks, k), Ser(Nops(n)))
    ensures Nopped(v.toks, Cut(k, j, Nops(n)))
    ensures k == 0 && Rootless(h, m', Nops(n) + v.toks[j..], v.tab, rsv)
  {
    hide Off, Editable, Written, Edited, Ser, Whole, Nops, Rootless;
    InsideUsed(h, m, v, rsv);
    WrittenEdit(m, h.offStruct + Off(v.toks, k), Ser(Nops(n)), Used(h));
    RootErased(h, m, v, rsv, h, m', l, k, j, Nops(n));
  }

  /** The room check of `fdt_setprop_inplace_namelen_partial`: a 32-bit sum, compared as an unsigned number. */
  predicate RefusesPartial(proplen: nat, idx: u32, len: nat) {
    proplen < U32(idx + len)
  }

  /** The sum wraps to no more than the length of the value. */
  predicate Slips(proplen: nat, idx: u32, len: nat) {
    TWO32 <= idx + len <= TWO32 + proplen
  }

  /** The check refuses exactly what does not fit in a value, unless the sum slips through; and in values of every
      length exactly when the sum does not wrap. */
  lemma PartialCheckExact(proplen: nat, idx: u32, len: nat)
    requires proplen < TWO31 && len < TWO31
    ensures (RefusesPartial(proplen, idx, len) <==> proplen < idx + len) <==> !Slips(proplen, idx, len)
    ensures (forall n: nat :: n < TWO31 ==> (RefusesPartial(n, idx, len) <==> n < idx + len)) <==> idx + len < TWO32
  {
    if idx + len >= TWO32 {
      var n := idx + len - TWO32;
      assert U32(idx + len) == n;
      assert n < TWO31 && !RefusesPartial(n, idx, len);
    }
  }

  /** Four bytes at 2^32 - 4 of a four-byte value are let through; they go to the four bytes before the value. */
  lemma CellBeforeValue()
    ensures !RefusesPartial(4, 0xFFFF_FFFC, 4) && 4 < 0xFFFF_FFFC + 4 && I32(0xFFFF_FFFC) == -4
  {
  }

  lemma ValueShort(v: View, off: int, l: Loc, q: nat)
    requires v.Ok() && v.NodeAt(off, l) && q < |l.node.props|
    ensures |l.node.props[q].value| <= |v.s| < TWO31
  {
    hide View.NodeAt, Ser, Abs, Flatten, Wf, Named;
    ValueFits(v, off, l, q);
  }

  /** `fdt_setprop_inplace_namelen_partial`: some bytes of a value are overwritten. */
  method SetpropInplacePartial(fdt: Blob, nodeoffset: int, name: bytes, idx: u32, val: bytes, ghost l: Loc)
    returns (err: int, ghost prop: int, ghost c: Cut)
    requires fdt.Valid() && fdt.v.Handle(nodeoffset, l) && nodeoffset < TWO31 && |val| < TWO31
    requires NodeCheck(fdt.v.s, nodeoffset) >= 0 ==>
      var q := FindProp(l.node.props, name, 0);
      q < |l.node.props| ==> !Slips(|l.node.props[q].value|, idx, |val|)
    modifies fdt.buf, fdt`v
    ensures fdt.Valid() && fdt.v.tab == old(fdt.v.tab)
    ensures NodeCheck(old(fdt.v.s), nodeoffset) < 0 ==> err == -ERR_BADOFFSET && fdt.v == old(fdt.v)
    ensures NodeCheck(old(fdt.v.s), nodeoffset) >= 0 ==>
      var q := FindProp(l.node.props, name, 0);
      if q == |l.node.props| then err == -ERR_NOTFOUND && fdt.v == old(fdt.v)
      else if |l.node.props[q].value| < |val| + idx then err == -ERR_NOSPACE && fdt.v == old(fdt.v)
      else (err == 0 && SameOffsets(old(fdt.v.toks), fdt.v.toks)
            && PropSet(old(fdt.v), fdt.v, c, nodeoffset, l,
                       l.node.props[q := Prop(name, Written(l.node.props[q].value, idx, val))], prop, q))
  {
    hide Editable, Legible, View.Ok, PropSet, SameOffsets, NodeCheck, View.PropAt, Whole;
    ghost var q := FindProp(l.node.props, name, 0);
    c := Cut(0, 0, []);
    ViewOfBlob(fdt);
    var at, proplen := GetPropertyNamelen(fdt, nodeoffset, name, l);
    prop := at;
    if at < 0 { return proplen, prop, c; }
    ValueShort(fdt.v, nodeoffset, l, q);
    PartialCheckExact(proplen, idx, |val|);
    if RefusesPartial(proplen, idx, |val|) { return -ERR_NOSPACE, prop, c; }
    c := WriteValue(fdt, at, idx, val, l, q);
    return 0, prop, c;
  }
}
