/** fdt_rw.c: editing a tree in place. */
module FdtRw {
  import opened Bytes
  import opened Strings
  import opened CString
  import opened Trees
  import opened Tokens
  import opened Lexer
  import opened Walk
  import opened Views
  import opened Edits
  import opened Fdt
  import opened FdtRo

  /** What `fdt_rw_check_header_` returns. */
  function RwError(h: Header): int {
    if HeaderError(h) != 0 then HeaderError(h)
    else if h.version < 17 then -ERR_BADVERSION
    else if Misordered(h, 16, h.sizeStruct) then -ERR_BADLAYOUT
    else 0
  }

  function Downgraded(h: Header): Header {
    if h.version > 17 then h.(version := 17) else h
  }

  /** `fdt_rw_check_header_`: a newer version is written down as 17. */
  method RwCheckHeader(fdt: Blob) returns (err: int)
    modifies fdt`h
    ensures err == RwError(old(fdt.h))
    ensures fdt.h == if err == 0 then Downgraded(old(fdt.h)) else old(fdt.h)
    ensures old(fdt.Valid()) ==> err == 0 && fdt.Valid()
  {
    hide Editable, Legible;
    if fdt.Valid() { EditableDowngraded(fdt.h, fdt.buf[..], fdt.v, fdt.rsv); }
    err := RwError(fdt.h);
    if err == 0 { fdt.h := Downgraded(fdt.h); }
  }

  lemma EditableDowngraded(h: Header, m: bytes, v: View, rsv: seq<Rsv>)
    requires Editable(h, m, v, rsv)
    ensures RwError(h) == 0 && Editable(Downgraded(h), m, v, rsv)
  {
    hide View.Ok, Ser, Reserves, Editable, Misordered;
    EditableBlocks(h, m, v, rsv);
    EditableBlocks(Downgraded(h), m, v, rsv);
    OrderTest(h, 16, h.sizeStruct);
  }

  /** `fdt_splice_`: room is made or closed at `p` by moving everything up to the end of the last block. */
  method Splice(fdt: Blob, p: nat, oldlen: nat, newlen: nat) returns (err: int)
    requires Used(fdt.h) <= fdt.h.totalsize <= fdt.buf.Length
    modifies fdt.buf
    ensures err == SpliceError(fdt.h, p, oldlen, newlen)
    ensures err == 0 ==> fdt.buf[..] == Moved(old(fdt.buf[..]), p + newlen, p + oldlen, Used(fdt.h) - p - oldlen)
    ensures err != 0 ==> fdt.buf[..] == old(fdt.buf[..])
  {
    var end := Used(fdt.h);
    if p + oldlen > end { return -ERR_BADOFFSET; }
    if end - oldlen + newlen > fdt.h.totalsize { return -ERR_NOSPACE; }
    Memmove(fdt.buf, p + newlen, p + oldlen, end - p - oldlen);
    return 0;
  }

  function SpliceError(h: Header, p: nat, oldlen: nat, newlen: nat): int {
    if p + oldlen > Used(h) then -ERR_BADOFFSET
    else if Used(h) - oldlen + newlen > h.totalsize then -ERR_NOSPACE
    else 0
  }

  /** `fdt_splice_struct_`. */
  method SpliceStruct(fdt: Blob, p: nat, oldlen: nat, newlen: nat) returns (err: int)
    requires Ordered(fdt.h, 16, fdt.h.sizeStruct) && fdt.h.totalsize <= fdt.buf.Length < TWO31
    requires fdt.h.offStruct <= p && p + oldlen <= fdt.h.offStruct + fdt.h.sizeStruct
    modifies fdt.buf, fdt`h
    ensures err == SpliceError(old(fdt.h), p, oldlen, newlen)
    ensures err != 0 ==> err == -ERR_NOSPACE && fdt.buf[..] == old(fdt.buf[..]) && fdt.h == old(fdt.h)
    ensures err == 0 ==>
      && fdt.buf[..] == Moved(old(fdt.buf[..]), p + newlen, p + oldlen, Used(old(fdt.h)) - p - oldlen)
      && Resized(old(fdt.h), fdt.h, oldlen, newlen) && Used(fdt.h) <= fdt.h.totalsize
  {
    err := Splice(fdt, p, oldlen, newlen);
    if err != 0 { return; }
    var delta := newlen - oldlen;
    fdt.h := fdt.h.(sizeStruct := fdt.h.sizeStruct + delta, offStrings := fdt.h.offStrings + delta);
  }

  /** A splice followed by writes inside the new stretch is an edit. */
  lemma SpliceThenWrite(m: bytes, m1: bytes, m2: bytes, a: nat, p: nat, oldlen: nat, newlen: nat, u: nat)
    requires a <= p && p + oldlen <= u <= |m| && u - oldlen + newlen <= |m|
    requires m1 == Moved(m, p + newlen, p + oldlen, u - p - oldlen)
    requires |m2| == |m1| && m2[..a] == m1[..a] && m2[p + newlen..] == m1[p + newlen..]
    ensures Edited(m, m2, a, p + oldlen, m2[a..p + newlen], u)
  {
    var d, n := p + newlen, u - p - oldlen;
    assert m1[..a] == m[..a];
    assert m1[d..d + n] == m[p + oldlen..u];
    assert m2[d..d + n] == m2[d..][..n] == m1[d..][..n] == m1[d..d + n];
  }

  /** `fdt_splice_string_` for the string being added, and `fdt_find_add_string_`. */
  method FindAddString(fdt: Blob, s: bytes) returns (r: int)
    requires fdt.Valid() && NUL !in s
    modifies fdt.buf, fdt`h, fdt`v
    ensures fdt.Valid()
    ensures r < 0 ==> r == -ERR_NOSPACE && fdt.v == old(fdt.v) && fdt.h == old(fdt.h)
    ensures r < 0 <==> NewStringSize(old(fdt.v.tab), s) > 0 && Used(old(fdt.h)) + |s| + 1 > old(fdt.h.totalsize)
    ensures r >= 0 ==> r == NameOff(old(fdt.v.tab), s) && HasStr(fdt.v.tab, r) && StrAt(fdt.v.tab, r) == s && r < TWO31
    ensures r >= 0 ==> fdt.v == old(fdt.v).(tab := WithString(old(fdt.v.tab), s))
    ensures r >= 0 ==> fdt.h == old(fdt.h).(sizeStrings := old(fdt.h.sizeStrings) + NewStringSize(old(fdt.v.tab), s))
  {
    hide View.Ok, Ser, Reserves, Occurs, HasStr, Editable, Moved, Written, StrAt;
    ghost var h, m, v := fdt.h, fdt.buf[..], fdt.v;
    EditableBlocks(h, m, v, fdt.rsv);
    var strtab, size := fdt.h.offStrings, fdt.h.sizeStrings;
    r := FindString(fdt.buf[..], strtab, size, s);
    if r >= 0 {
      OccursIsStrAt(v.tab, r, s);
      return;
    }
    var err := Splice(fdt, strtab + size, 0, |s| + 1);
    if err != 0 { return err; }
    Memcpy(fdt.buf, strtab + size, s + [NUL]);
    fdt.h := fdt.h.(sizeStrings := size + |s| + 1);
    fdt.v := v.(tab := v.tab + (s + [NUL]));
    StringAdded(h, m, v, fdt.rsv, fdt.buf[..], s);
    return size;
  }

  /** How much the strings block grows for a name: nothing when the name is there already. */
  function NewStringSize(t: bytes, s: bytes): nat {
    if FirstOccurrence(t, s, 0) < |t| then 0 else |s| + 1
  }

  function WithString(t: bytes, s: bytes): bytes {
    if NewStringSize(t, s) == 0 then t else t + (s + [NUL])
  }

  /** Where the in-place writer finds or puts a name. */
  function NameOff(t: bytes, s: bytes): nat {
    if FirstOccurrence(t, s, 0) < |t| then FirstOccurrence(t, s, 0) else |t|
  }

  lemma StringAdded(h: Header, m: bytes, v: View, rsv: seq<Rsv>, m': bytes, s: bytes)
    requires Editable(h, m, v, rsv) && NUL !in s && Used(h) + |s| + 1 <= h.totalsize
    requires m' == Written(Moved(m, Used(h) + |s| + 1, Used(h), 0), Used(h), s + [NUL])
    ensures Editable(h.(sizeStrings := h.sizeStrings + |s| + 1), m', v.(tab := v.tab + (s + [NUL])), rsv)
    ensures HasStr(v.tab + (s + [NUL]), |v.tab|) && StrAt(v.tab + (s + [NUL]), |v.tab|) == s
  {
    hide Ser, Reserves, Editable, View.Ok, StrAt, HasStr, Moved, Written, Occurs;
    EditableBlocks(h, m, v, rsv);
    var h', v', u := h.(sizeStrings := h.sizeStrings + |s| + 1), v.(tab := v.tab + (s + [NUL])), Used(h);
    AppendedBytes(m, m', u, s + [NUL]);
    SamePrefix(m, m', u, h.offStruct, h.offStruct + h.sizeStruct);
    SamePrefix(m, m', u, h.offRsv, h.offStruct);
    SamePrefix(m, m', u, h.offStrings, u);
    SliceJoin(m', h.offStrings, u, u + |s| + 1);
    ViewGrown(v, s + [NUL]);
    EditableBlocks(h', m', v', rsv);
    OccursAppended(v.tab, s);
    OccursIsStrAt(v'.tab, |v.tab|, s);
  }

  lemma OccursAppended(t: bytes, s: bytes)
    ensures Occurs(t + (s + [NUL]), |t|, s)
  {
  }

  lemma AppendedBytes(m: bytes, m': bytes, u: nat, w: bytes)
    requires u + |w| <= |m| && m' == Written(Moved(m, u + |w|, u, 0), u, w)
    ensures |m'| == |m| && m'[..u] == m[..u] && m'[u..u + |w|] == w
  {
    var m1 := Moved(m, u + |w|, u, 0);
    MovedParts(m, u + |w|, u, 0);
    WrittenParts(m1, u, w);
    assert m1[..u] == m1[..u + |w|][..u] == m[..u];
  }

  /** Where `SetAt` puts the property. */
  function PosOf(ps: seq<Prop>, name: bytes): nat {
    if FindProp(ps, name, 0) < |ps| then FindProp(ps, name, 0) else 0
  }

  /** The first property of that name replaced, or a new one in front. */
  function SetAt(ps: seq<Prop>, name: bytes, value: bytes): (r: seq<Prop>)
    ensures PosOf(ps, name) < |r| && r[PosOf(ps, name)] == Prop(name, value)
  {
    var q := FindProp(ps, name, 0);
    if q < |ps| then ps[q := Prop(name, value)] else [Prop(name, value)] + ps
  }

  /** A value cut or extended to `len` bytes, keeping what was there. */
  predicate Kept(before: bytes, after: bytes) {
    var n := Min(|before|, |after|);
    after[..n] == before[..n]
  }

  /** The bytes of a property token, from its parts in memory. */
  lemma PropInMemory(m: bytes, p: nat, nameoff: u32, value: bytes, pad: bytes)
    requires |value| < TWO31 && p + 12 + |value| + |pad| <= |m|
    requires m[p..p + 4] == Word(FDT_PROP) && m[p + 4..p + 8] == Word(|value|) && m[p + 8..p + 12] == Word(nameoff)
    requires m[p + 12..p + 12 + |value|] == value
    requires m[p + 12 + |value|..p + 12 + |value| + |pad|] == pad
    ensures m[p..p + 12 + |value| + |pad|] == TokBytes(TProp(nameoff, value, pad))
  {
    hide Word;
    var w := m[p..p + 12 + |value| + |pad|];
    assert w == m[p..p + 4] + (m[p + 4..p + 8] + m[p + 8..p + 12]
      + m[p + 12..p + 12 + |value|] + m[p + 12 + |value|..p + 12 + |value| + |pad|]);
  }

  /** Memory after `fdt_resize_property_`: the data area resized, then the length cell written. */
  lemma ResizeBytes(m: bytes, m1: bytes, m2: bytes, p: nat, nameoff: u32, value: bytes, pad: bytes, len: nat, u: nat)
    returns (value': bytes, pad': bytes)
    requires WfTok(TProp(nameoff, value, pad)) && len < TWO31
    requires p + 12 + |value| + |pad| <= u <= |m| && u - |value| - |pad| + Align4(len) <= |m|
    requires m[p..p + 12 + |value| + |pad|] == TokBytes(TProp(nameoff, value, pad))
    requires m1 == Moved(m, p + 12 + Align4(len), p + 12 + |value| + |pad|, u - p - 12 - |value| - |pad|)
    requires m2 == Written(m1, p + 4, Word(len))
    ensures |value'| == len && WfTok(TProp(nameoff, value', pad')) && Kept(value, value')
    ensures |value'| + |pad'| == Align4(len)
    ensures Edited(m, m2, p, p + 12 + |value| + |pad|, TokBytes(TProp(nameoff, value', pad')), u)
  {
    hide Word, Moved, Written, Aligned, TokBytes, Align4, Body, Kept, Edited, WfTok;
    var d, an := p + 12, Align4(len);
    Align4Aligned(len);
    PropWf(nameoff, value, pad);
    value', pad' := m[d..d + len], m[d + len..d + an];
    PropWf(nameoff, value', pad');
    ResizedFields(m, m1, m2, p, nameoff, value, pad, len, an, u);
    KeptSlice(m, d, value, len);
    PropInMemory(m2, p, nameoff, value', pad');
    SpliceThenWrite(m, m1, m2, p, d, |value| + |pad|, an, u);
  }

  lemma ResizedFields(m: bytes, m1: bytes, m2: bytes, p: nat, nameoff: u32, value: bytes, pad: bytes, len: nat, an: nat,
                      u: nat)
    requires |value| < TWO31 && len <= an && len < TWO31
    requires p + 12 + |value| + |pad| <= u <= |m| && u - |value| - |pad| + an <= |m|
    requires m[p..p + 12 + |value| + |pad|] == TokBytes(TProp(nameoff, value, pad))
    requires m1 == Moved(m, p + 12 + an, p + 12 + |value| + |pad|, u - p - 12 - |value| - |pad|)
    requires m2 == Written(m1, p + 4, Word(len))
    ensures |m2| == |m| && m2[..p] == m1[..p] && m2[p + 12 + an..] == m1[p + 12 + an..]
    ensures m[p + 12..p + 12 + |value|] == value
    ensures m2[p..p + 4] == Word(FDT_PROP) && m2[p + 4..p + 8] == Word(len) && m2[p + 8..p + 12] == Word(nameoff)
    ensures m2[p + 12..p + 12 + len] == m[p + 12..p + 12 + len]
    ensures m2[p + 12 + len..p + 12 + an] == m[p + 12 + len..p + 12 + an]
  {
    hide Word, Moved, Written, TokBytes;
    var d, e := p + 12, p + 12 + |value| + |pad|;
    MovedParts(m, d + an, e, u - e);
    WrittenParts(m1, p + 4, Word(len));
    FieldsOf(m, p, nameoff, value, pad);
    OutsideCell(m, m1, m2, p, d + an, Word(len));
    SameParts(m, m2, p, d + an, len);
  }

  lemma KeptSlice(m: bytes, d: nat, value: bytes, len: nat)
    requires d + |value| <= |m| && d + len <= |m| && m[d..d + |value|] == value
    ensures Kept(value, m[d..d + len])
  {
    var n := Min(|value|, len);
    assert m[d..d + len][..n] == m[d..d + n];
    assert m[d..d + |value|][..n] == m[d..d + n];
  }

  lemma PropWf(nameoff: u32, value: bytes, pad: bytes)
    ensures WfTok(TProp(nameoff, value, pad)) <==> |value| < TWO31 && |pad| < 4 && Aligned(|value| + |pad|)
    ensures |TokBytes(TProp(nameoff, value, pad))| == 12 + |value| + |pad|
  {
    hide Aligned, Word;
  }

  /** Writing the cell at `p + 4` changes nothing else. */
  lemma OutsideCell(m: bytes, m1: bytes, m2: bytes, p: nat, e: nat, w: bytes)
    requires |w| == 4 && p + 12 <= e <= |m| == |m1| && m1[..e] == m[..e]
    requires |m2| == |m1| && m2[..p + 4] == m1[..p + 4] && m2[p + 4..p + 4 + |w|] == w
    requires m2[p + 4 + |w|..] == m1[p + 4 + |w|..]
    ensures m2[..p] == m1[..p] && m2[e..] == m1[e..]
    ensures m2[p..p + 4] == m[p..p + 4] && m2[p + 4..p + 8] == w && m2[p + 8..e] == m[p + 8..e]
  {
    SamePrefix(m1, m2, p + 4, 0, p);
    SamePrefix(m1, m2, p + 4, p, p + 4);
    SamePrefix(m, m1, e, p, p + 4);
    SamePrefix(m, m1, e, p + 8, e);
    SameSuffix(m1, m2, p + 8, p + 8, e);
    SameSuffix(m1, m2, p + 8, e, |m|);
    assert m2[..p] == m2[0..p] && m1[..p] == m1[0..p];
    assert m2[e..] == m2[e..|m|] && m1[e..] == m1[e..|m|];
  }

  lemma SameParts(m: bytes, m2: bytes, p: nat, e: nat, len: nat)
    requires p + 12 + len <= e <= |m| == |m2| && m2[p + 8..e] == m[p + 8..e]
    ensures m2[p + 8..p + 12] == m[p + 8..p + 12]
    ensures m2[p + 12..p + 12 + len] == m[p + 12..p + 12 + len]
    ensures m2[p + 12 + len..e] == m[p + 12 + len..e]
  {
    SameInside(m, m2, p + 8, e, p + 8, p + 12);
    SameInside(m, m2, p + 8, e, p + 12, p + 12 + len);
    SameInside(m, m2, p + 8, e, p + 12 + len, e);
  }

  lemma SameInside(m: bytes, m2: bytes, a: nat, e: nat, x: nat, y: nat)
    requires a <= x <= y <= e <= |m| == |m2| && m2[a..e] == m[a..e]
    ensures m2[x..y] == m[x..y]
  {
    var t := m[a..e];
    Sub(m, a, t, x - a, y - a);
    Sub(m2, a, t, x - a, y - a);
  }

  lemma SameSuffix(m: bytes, m': bytes, u: nat, x: nat, y: nat)
    requires u <= x <= y <= |m| == |m'| && m'[u..] == m[u..]
    ensures m'[x..y] == m[x..y]
  {
    var t := m[u..];
    assert m[u..u + |t|] == t && m'[u..u + |t|] == t;
    Sub(m, u, t, x - u, y - u);
    Sub(m', u, t, x - u, y - u);
  }

  /** The parts of a property token in memory. */
  lemma FieldsOf(m: bytes, p: nat, nameoff: u32, value: bytes, pad: bytes)
    requires |value| < TWO31 && p + 12 + |value| + |pad| <= |m|
    requires m[p..p + 12 + |value| + |pad|] == TokBytes(TProp(nameoff, value, pad))
    ensures m[p..p + 4] == Word(FDT_PROP) && m[p + 4..p + 8] == Word(|value|) && m[p + 8..p + 12] == Word(nameoff)
    ensures m[p + 12..p + 12 + |value|] == value
    ensures m[p + 12 + |value|..p + 12 + |value| + |pad|] == pad
  {
    hide Word, TokBytes;
    var w := TokBytes(TProp(nameoff, value, pad));
    PropTail(nameoff, value, pad);
    PropCells(m, p, w, Word(|value|), Word(nameoff), value, pad);
    Sub(m, p, w, 0, 4);
    assert w[0..4] == w[..4];
    assert w[4..][8 + |value|..] == pad && w[12 + |value|..12 + |value| + |pad|] == w[4..][8 + |value|..];
    Sub(m, p, w, 12 + |value|, 12 + |value| + |pad|);
  }

  /** The node at `off` has properties `ps` now; its offset is what it was, and property `q` is at `prop`. */
  ghost predicate PropSet(v: View, v': View, c: Cut, off: int, l: Loc, ps: seq<Prop>, prop: int, q: nat) {
    && v'.tree == Whole(WithProps(l, ps))
    && v'.NodeAt(off, WithProps(l, ps))
    && v'.PropAt(prop, WithProps(l, ps), q)
    && EditedBy(v, v', c, off) && |c.ins| == 1 && prop == Off(v.toks, c.k)
  }

  /** The view after property `q`, token `k`, got the value `w`. */
  lemma ReplacedView(h: Header, m: bytes, v: View, rsv: seq<Rsv>, h': Header, m': bytes,
                     l: Loc, q: nat, k: nat, w: bytes, pad: bytes) returns (v': View, c: Cut)
    requires Editable(h, m, v, rsv) && v.Holds(k, l, q) && |m'| == |m|
    requires WfTok(TProp(v.toks[k].nameoff, w, pad))
    requires var t := TProp(v.toks[k].nameoff, w, pad);
      && Edited(m, m', h.offStruct + Off(v.toks, k), h.offStruct + Off(v.toks, k) + |TokBytes(v.toks[k])|, TokBytes(t),
        Used(h))
      && Resized(h, h', |TokBytes(v.toks[k])|, |TokBytes(t)|)
    requires Used(h') <= h'.totalsize
    ensures Editable(h', m', v', rsv) && v'.tab == v.tab
    ensures c == Cut(k, k + 1, [TProp(v.toks[k].nameoff, w, pad)]) && v'.toks == Spliced(v.toks, c)
    ensures forall off :: v.NodeAt(off, l) ==>
      PropSet(v, v', c, off, l, l.node.props[q := Prop(l.node.props[q].name, w)], Off(v.toks, k), q)
  {
    hide Ser, Flatten, Whole, InsideFrom, Abs, Off, From, Before, TokBytes, Edited, Reserves, Region, Tab, RsvArea;
    var t := TProp(v.toks[k].nameoff, w, pad);
    var ps := l.node.props[q := Prop(l.node.props[q].name, w)];
    c := Cut(k, k + 1, [t]);
    HoldsRest(v, k, l, q);
    AbsBeforeProp(v, k, l, q);
    EventsReplaced(l, q, ps[q]);
    AbsOne(t, v.tab);
    SerOne(t);
    OffStep(v.toks, k);
    TokenCheck(v, k);
    OpensBeforeAll(v, k, l, q);
    v' := StructEdit(h, m, v, rsv, h', m', c, Whole(WithProps(l, ps)));
    forall off | v.NodeAt(off, l)
      ensures PropSet(v, v', c, off, l, ps, Off(v.toks, k), q)
    {
      var kn: nat :| v.Opens(kn, l) && off == Off(v.toks, kn);
      OpensBeforeHolds(v, kn, k, l, q);
      OffMono(v.toks, kn, k);
      PropReplaced(v, v', k, l, q, w, pad, kn);
    }
  }

  /** The root's opening token is before everything else. */
  lemma OpensBeforeAll(v: View, k: nat, l: Loc, q: nat)
    requires v.Ok() && v.Holds(k, l, q)
    ensures k > 0
  {
  }

  /** The bytes of token `k`, in memory. */
  lemma TokenInMemory(h: Header, m: bytes, v: View, k: nat)
    requires Legible(h, m, v) && k < |v.toks|
    ensures var p, w := h.offStruct + Off(v.toks, k), TokBytes(v.toks[k]);
      p + |w| <= |m| && m[p..p + |w|] == w && Off(v.toks, k) + |w| == Off(v.toks, k + 1) <= |v.s|
  {
    hide Ser, Off, TokBytes, Region, Tab, TagAt, Abs, Flatten, Named;
    BytesAt(v.s, v.toks, k);
    TokenCheck(v, k);
    InMemory(h, m, v, Off(v.toks, k), Off(v.toks, k + 1));
  }

  /** Memory and view after a property was resized. */
  lemma ResizedView(h: Header, m: bytes, v: View, rsv: seq<Rsv>, m1: bytes, h': Header, m': bytes,
                    l: Loc, q: nat, k: nat, len: nat, d: nat, o: nat, n: nat) returns (v': View, c: Cut, w: bytes)
    requires Editable(h, m, v, rsv) && v.Holds(k, l, q) && len < TWO31
    requires d == h.offStruct + Off(v.toks, k) + 12 && o == Align4(|l.node.props[q].value|) && n == Align4(len)
    requires d + o <= Used(h) && Used(h) - o + n <= h.totalsize <= |m|
    requires m1 == Moved(m, d + n, d + o, Used(h) - d - o) && m' == Written(m1, d - 8, Word(len))
    requires Resized(h, h', o, n)
    ensures Editable(h', m', v', rsv) && |w| == len && Kept(l.node.props[q].value, w) && v'.tab == v.tab
    ensures forall off :: v.NodeAt(off, l) ==>
      PropSet(v, v', c, off, l, l.node.props[q := Prop(l.node.props[q].name, w)], Off(v.toks, k), q)
  {
    hide Ser, Flatten, Whole, InsideFrom, Abs, Off, From, Before, Edited, Reserves, Region, Tab, RsvArea, View.Ok,
      Moved, Written, Word, PropSet, Kept, Body, TagAt;
    var t := v.toks[k];
    HoldsRest(v, k, l, q);
    WfAt(v.toks, k) by { assert v.Ok() && Wf(v.toks) by { ViewWf(v); } }
    TokenInMemory(h, m, v, k);
    PadIs(t.value, t.pad);
    var pad: bytes;
    w, pad := ResizeBytes(m, m1, m', h.offStruct + Off(v.toks, k), t.nameoff, t.value, t.pad, len, Used(h));
    v', c := ReplacedView(h, m, v, rsv, h', m', l, q, k, w, pad);
  }

  lemma ViewWf(v: View)
    requires v.Ok()
    ensures Wf(v.toks)
  {
  }

  lemma PadIs(value: bytes, pad: bytes)
    requires Aligned(|value| + |pad|) && |pad| < 4
    ensures |value| + |pad| == Align4(|value|)
  {
    AlignIs(|value|, |value| + |pad|);
  }

  /** Resizing the data of the property at `prop`: the data area is spliced and the length cell written. */
  method ResizeAt(fdt: Blob, prop: int, oldlen: nat, len: nat, ghost l: Loc, ghost q: nat)
    returns (err: int, ghost w: bytes, ghost c: Cut)
    requires fdt.Valid() && fdt.v.PropAt(prop, l, q) && oldlen == |l.node.props[q].value| && len < TWO31
    modifies fdt.buf, fdt`h, fdt`v
    ensures fdt.Valid() && fdt.h.totalsize == old(fdt.h.totalsize)
    ensures Used(old(fdt.h)) - Align4(oldlen) + Align4(len) > fdt.h.totalsize ==>
      err == -ERR_NOSPACE && fdt.v == old(fdt.v) && fdt.h == old(fdt.h)
    ensures Used(old(fdt.h)) - Align4(oldlen) + Align4(len) <= fdt.h.totalsize ==>
      && err == 0 && Used(fdt.h) == Used(old(fdt.h)) - Align4(oldlen) + Align4(len)
      && |w| == len && Kept(l.node.props[q].value, w) && fdt.v.tab == old(fdt.v.tab)
      && forall off :: old(fdt.v).NodeAt(off, l) ==>
           PropSet(old(fdt.v), fdt.v, c, off, l, l.node.props[q := Prop(l.node.props[q].name, w)], prop, q)
  {
    hide Ser, Flatten, Whole, InsideFrom, Abs, Off, From, Before, Edited, Reserves, Region, Tab, RsvArea, Editable,
      View.Ok, Moved, Written, Word, PropSet, Kept, Body, TagAt, NodeCheck, Align4;
    ghost var h, m, v := fdt.h, fdt.buf[..], fdt.v;
    EditableBlocks(h, m, v, fdt.rsv);
    ghost var k: nat :| v.Holds(k, l, q) && prop == Off(v.toks, k);
    PropExtent(h, m, v, fdt.rsv, k, l, q);
    w, c := [], Cut(0, 0, []);
    err := SpliceStruct(fdt, fdt.h.offStruct + prop + 12, Align4(oldlen), Align4(len));
    if err != 0 { return; }
    ghost var m1 := fdt.buf[..];
    Memcpy(fdt.buf, fdt.h.offStruct + prop + 4, Word(len));
    fdt.v, c, w := ResizedView(h, m, v, fdt.rsv, m1, fdt.h, fdt.buf[..], l, q, k, len,
      h.offStruct + prop + 12, Align4(oldlen), Align4(len));
  }

  /** The end of the blocks once the property of that name has `len` bytes. */
  function SetSize(h: Header, v: View, l: Loc, name: bytes, len: nat): int {
    var q := FindProp(l.node.props, name, 0);
    if q < |l.node.props| then Used(h) - Align4(|l.node.props[q].value|) + Align4(len)
    else AddSize(h, v, name, len)
  }

  /** How full a blob is: where its blocks end, its strings, and its size. */
  datatype Level = Level(used: int, tab: bytes, total: nat)

  function LevelOf(h: Header, v: View): Level { Level(Used(h), v.tab, h.totalsize) }

  /** What a call that needs room comes to: the level that it leaves, and whether there was room. */
  datatype Filling = Fits(l: Level) | Bursts(l: Level)

  /** A new property; its name may still find room when the property does not. */
  function AddFill(f: Level, name: bytes, len: nat): Filling {
    var n := NewStringSize(f.tab, name);
    if n > 0 && f.used + n > f.total then Bursts(f)
    else
      var g := f.(used := f.used + n, tab := WithString(f.tab, name));
      var size := g.used + 12 + Align4(len);
      if size > g.total then Bursts(g) else Fits(g.(used := size))
  }

  /** A property given `len` bytes. */
  function SetFill(f: Level, ps: seq<Prop>, name: bytes, len: nat): Filling {
    var q := FindProp(ps, name, 0);
    if q < |ps| then
      var size := f.used - Align4(|ps[q].value|) + Align4(len);
      if size > f.total then Bursts(f) else Fits(f.(used := size))
    else AddFill(f, name, len)
  }

  /** A call that returned `err` and left the level `l`. */
  predicate Filled(err: int, f: Filling, l: Level) {
    l == f.l && if f.Fits? then err == 0 else err == -ERR_NOSPACE
  }

  /** `fdt_resize_property_`. On success the property keeps its place and its first bytes. */
  method ResizeProperty(fdt: Blob, nodeoffset: int, name: bytes, len: nat, ghost l: Loc)
    returns (err: int, prop: int, ghost w: bytes, ghost c: Cut)
    requires fdt.Valid() && nodeoffset < TWO31 && fdt.v.Handle(nodeoffset, l) && len < TWO31
    modifies fdt.buf, fdt`h, fdt`v
    ensures fdt.Valid() && fdt.h.totalsize == old(fdt.h.totalsize)
    ensures err != 0 ==> fdt.v == old(fdt.v) && fdt.h == old(fdt.h)
    ensures NodeCheck(old(fdt.v.s), nodeoffset) < 0 ==> err == -ERR_BADOFFSET
    ensures NodeCheck(old(fdt.v.s), nodeoffset) >= 0 ==>
      var q := FindProp(l.node.props, name, 0);
      var used := SetSize(old(fdt.h), old(fdt.v), l, name, len);
      && (q == |l.node.props| ==> err == -ERR_NOTFOUND)
      && (q < |l.node.props| && used > fdt.h.totalsize ==> err == -ERR_NOSPACE)
      && (q < |l.node.props| && used <= fdt.h.totalsize ==>
        && err == 0 && Used(fdt.h) == used && |w| == len && Kept(l.node.props[q].value, w)
        && fdt.v.tab == old(fdt.v.tab) && nodeoffset < prop < TWO31
        && PropSet(old(fdt.v), fdt.v, c, nodeoffset, l, l.node.props[q := Prop(name, w)], prop, q))
  {
    hide Region, Tab, Editable, View.Ok, PropSet, Kept, NodeCheck, Align4, AddSize, View.PropAt;
    w, c := [], Cut(0, 0, []);
    LegibleOf(fdt.h, fdt.buf[..], fdt.v, fdt.rsv);
    var oldlen: int;
    prop, oldlen := GetPropertyNamelen(fdt, nodeoffset, name, l);
    if prop < 0 { return oldlen, prop, w, c; }
    err, w, c := ResizeAt(fdt, prop, oldlen, len, l, FindProp(l.node.props, name, 0));
  }

  lemma LegibleOf(h: Header, m: bytes, v: View, rsv: seq<Rsv>)
    requires Editable(h, m, v, rsv)
    ensures Legible(h, m, v)
  {
  }

  lemma PropExtent(h: Header, m: bytes, v: View, rsv: seq<Rsv>, k: nat, l: Loc, q: nat)
    requires Editable(h, m, v, rsv) && v.Holds(k, l, q)
    ensures Off(v.toks, k) + 12 + Align4(|l.node.props[q].value|) == Off(v.toks, k + 1) <= h.sizeStruct == |v.s|
  {
    hide Ser, Off, TokBytes, Region, Tab, TagAt, Abs, Flatten, Named, Reserves, RsvArea, Whole, Editable;
    EditableBlocks(h, m, v, rsv);
    HoldsRest(v, k, l, q);
    WfAt(v.toks, k);
    BytesAt(v.s, v.toks, k);
    PadIs(v.toks[k].value, v.toks[k].pad);
    TokenCheck(v, k);
  }

  /** Memory after room for a property was made and its header written. */
  lemma InsertBytes(m: bytes, m1: bytes, m2: bytes, p: nat, nameoff: u32, len: nat, u: nat)
    returns (value: bytes, pad: bytes)
    requires len < TWO31 && p <= u && u + 12 + Align4(len) <= |m|
    requires m1 == Moved(m, p + 12 + Align4(len), p, u - p)
    requires m2 == Written(Written(Written(m1, p, Word(FDT_PROP)), p + 8, Word(nameoff)), p + 4, Word(len))
    ensures |value| == len && WfTok(TProp(nameoff, value, pad)) && |value| + |pad| == Align4(len)
    ensures Edited(m, m2, p, p, TokBytes(TProp(nameoff, value, pad)), u)
  {
    hide Word, Moved, Written, Aligned, TokBytes, Align4, Body, Edited;
    var an := Align4(len);
    var e := p + 12 + an;
    Align4Aligned(len);
    value, pad := m1[p + 12..p + 12 + len], m1[p + 12 + len..e];
    HeaderBytes(m1, m2, p, Word(FDT_PROP), Word(len), Word(nameoff));
    SameSuffix(m1, m2, p + 12, p + 12, p + 12 + len);
    SameSuffix(m1, m2, p + 12, p + 12 + len, e);
    SameSuffix(m1, m2, p + 12, e, |m|);
    assert m2[e..] == m2[e..|m|] && m1[e..] == m1[e..|m|];
    PropInMemory(m2, p, nameoff, value, pad);
    SpliceThenWrite(m, m1, m2, p, p, 0, 12 + an, u);
  }

  lemma HeaderBytes(m1: bytes, m2: bytes, p: nat, tag: bytes, len: bytes, nameoff: bytes)
    requires |tag| == 4 && |len| == 4 && |nameoff| == 4 && p + 12 <= |m1|
    requires m2 == Written(Written(Written(m1, p, tag), p + 8, nameoff), p + 4, len)
    ensures |m2| == |m1| && m2[..p] == m1[..p] && m2[p + 12..] == m1[p + 12..]
    ensures m2[p..p + 4] == tag && m2[p + 4..p + 8] == len && m2[p + 8..p + 12] == nameoff
  {
    hide Written;
    var a := Written(m1, p, tag);
    var b := Written(a, p + 8, nameoff);
    WrittenParts(m1, p, tag);
    WrittenParts(a, p + 8, nameoff);
    WrittenParts(b, p + 4, len);
    SamePrefix(a, b, p + 8, p, p + 4);
    SamePrefix(b, m2, p + 4, p, p + 4);
    SameSuffix(b, m2, p + 8, p + 8, p + 12);
    SamePrefix(a, b, p + 8, 0, p);
    SamePrefix(b, m2, p + 4, 0, p);
    var e := |m1|;
    SameSuffix(m1, a, p + 4, p + 12, e);
    SameSuffix(a, b, p + 12, p + 12, e);
    SameSuffix(b, m2, p + 8, p + 12, e);
    assert m2[..p] == m2[0..p] && a[..p] == a[0..p];
    assert m2[p + 12..] == m2[p + 12..e] && m1[p + 12..] == m1[p + 12..e];
  }

  /** The view after a property was put in front of the others. */
  lemma InsertedView(h: Header, m: bytes, v: View, rsv: seq<Rsv>, h': Header, m': bytes,
                     l: Loc, k: nat, nameoff: u32, w: bytes, pad: bytes) returns (v': View, c: Cut)
    requires Editable(h, m, v, rsv) && v.Opens(k, l) && |m'| == |m|
    requires WfTok(TProp(nameoff, w, pad)) && HasStr(v.tab, nameoff)
    requires var t := TProp(nameoff, w, pad);
      && Edited(m, m', h.offStruct + Off(v.toks, k + 1), h.offStruct + Off(v.toks, k + 1), TokBytes(t), Used(h))
      && Resized(h, h', 0, |TokBytes(t)|)
    requires Used(h') <= h'.totalsize
    ensures Editable(h', m', v', rsv) && v'.tab == v.tab
    ensures PropSet(v, v', c, Off(v.toks, k), l, [Prop(StrAt(v.tab, nameoff), w)] + l.node.props, Off(v.toks, k + 1), 0)
  {
    hide Ser, Flatten, Whole, InsideFrom, Abs, Off, From, Before, TokBytes, Edited, Reserves, Region, Tab, RsvArea,
      StrAt, HasStr;
    var t := TProp(nameoff, w, pad);
    var ps := [Prop(StrAt(v.tab, nameoff), w)] + l.node.props;
    var l' := WithProps(l, ps);
    c := Cut(k + 1, k + 1, [t]);
    AbsBeforeNode(v, k, l);
    OpensInside(v, k, l);
    EventsInserted(l, ps[0]);
    AbsOne(t, v.tab);
    SerOne(t);
    TokenCheck(v, k);
    v' := StructEdit(h, m, v, rsv, h', m', c, Whole(l'));
    OpensAfter(v, v', c, k, l, l');
    SplicedOffsets(v.toks, c, k + 1);
    assert v'.toks[..k + 1] == v.toks[..k + 1];
    BeforeSame(l, l', 0);
    HoldsAfter(v', k + 1, l', 0);
  }

  /** `fdt_add_property_`, once the name has an offset: room after the opening of the node, and the header. */
  method InsertProperty(fdt: Blob, nextoffset: nat, namestroff: u32, len: nat, ghost l: Loc, ghost k: nat)
    returns (err: int, ghost w: bytes, ghost c: Cut)
    requires fdt.Valid() && fdt.v.Opens(k, l) && nextoffset == Off(fdt.v.toks, k + 1) <= |fdt.v.s| && len < TWO31
    requires HasStr(fdt.v.tab, namestroff)
    modifies fdt.buf, fdt`h, fdt`v
    ensures fdt.Valid() && fdt.h.totalsize == old(fdt.h.totalsize)
    ensures fdt.v.tab == old(fdt.v.tab)
    ensures Used(old(fdt.h)) + 12 + Align4(len) > fdt.h.totalsize ==>
      err == -ERR_NOSPACE && fdt.v == old(fdt.v) && fdt.h == old(fdt.h)
    ensures Used(old(fdt.h)) + 12 + Align4(len) <= fdt.h.totalsize ==>
      && err == 0 && Used(fdt.h) == Used(old(fdt.h)) + 12 + Align4(len) && |w| == len
      && PropSet(old(fdt.v), fdt.v, c, Off(old(fdt.v.toks), k), l,
                 [Prop(StrAt(old(fdt.v.tab), namestroff), w)] + l.node.props, nextoffset, 0)
  {
    hide Ser, Flatten, Whole, InsideFrom, Abs, Off, From, Before, Edited, Reserves, Region, Tab, RsvArea, Editable,
      View.Ok, Moved, Word, PropSet, Body, TagAt, Align4, HasStr, StrAt, Written, View.Opens;
    ghost var h, m, v := fdt.h, fdt.buf[..], fdt.v;
    EditableBlocks(h, m, v, fdt.rsv);
    w, c := [], Cut(0, 0, []);
    var p := fdt.h.offStruct + nextoffset;
    err := SpliceStruct(fdt, p, 0, 12 + Align4(len));
    if err != 0 { return; }
    ghost var m1 := fdt.buf[..];
    Memcpy(fdt.buf, p, Word(FDT_PROP));
    Memcpy(fdt.buf, p + 8, Word(namestroff));
    Memcpy(fdt.buf, p + 4, Word(len));
    ghost var pad: bytes;
    w, pad := InsertBytes(m, m1, fdt.buf[..], p, namestroff, len, Used(h));
    fdt.v, c := InsertedView(h, m, v, fdt.rsv, fdt.h, fdt.buf[..], l, k, namestroff, w, pad);
  }

  /** `fdt_add_property_`. When there is no room the tree is unchanged, though the name may have been added. */
  method AddProperty(fdt: Blob, nodeoffset: int, name: bytes, len: nat, ghost l: Loc)
    returns (err: int, prop: int, ghost w: bytes, ghost c: Cut)
    requires fdt.Valid() && nodeoffset < TWO31 && fdt.v.Handle(nodeoffset, l) && len < TWO31 && NUL !in name
    modifies fdt.buf, fdt`h, fdt`v
    ensures fdt.Valid() && fdt.h.totalsize == old(fdt.h.totalsize)
    ensures NodeCheck(old(fdt.v.s), nodeoffset) < 0 ==> err == -ERR_BADOFFSET && fdt.v == old(fdt.v)
    ensures NodeCheck(old(fdt.v.s), nodeoffset) >= 0 && AddSize(old(fdt.h), old(fdt.v), name, len) > fdt.h.totalsize ==>
      err == -ERR_NOSPACE && Renamed(old(fdt.v), fdt.v)
    ensures NodeCheck(old(fdt.v.s), nodeoffset) >= 0 ==>
      AddSize(old(fdt.h), old(fdt.v), name, len) <= fdt.h.totalsize ==>
      && err == 0 && Used(fdt.h) == AddSize(old(fdt.h), old(fdt.v), name, len)
      && |w| == len && nodeoffset < prop < TWO31
      && PropSet(old(fdt.v), fdt.v, c, nodeoffset, l, [Prop(name, w)] + l.node.props, prop, 0)
    ensures NodeCheck(old(fdt.v.s), nodeoffset) >= 0 ==>
      Filled(err, AddFill(LevelOf(old(fdt.h), old(fdt.v)), name, len), LevelOf(fdt.h, fdt.v))
  {
    hide Ser, Flatten, Whole, InsideFrom, Abs, Off, From, Before, Edited, Reserves, Region, Tab, RsvArea, Editable,
      View.Ok, Moved, Word, PropSet, Body, TagAt, NodeCheck, Align4, HasStr, StrAt, EditedBy, FirstOccurrence;
    ghost var v0 := fdt.v;
    NodeCheckSign(v0.s, nodeoffset);
    LegibleOf(fdt.h, fdt.buf[..], v0, fdt.rsv);
    w, c, prop := [], Cut(0, 0, []), -1;
    var nextoffset := CheckNodeOffset(fdt, nodeoffset);
    if nextoffset < 0 { return nextoffset, prop, w, c; }
    ghost var k: nat :| v0.Opens(k, l) && nodeoffset == Off(v0.toks, k);
    TokenCheck(v0, k);
    var namestroff := FindAddString(fdt, name);
    if namestroff < 0 { return namestroff, prop, w, c; }
    OpensGrown(v0, fdt.v.tab, k, l);
    ghost var v := fdt.v;
    prop := nextoffset;
    err, w, c := InsertProperty(fdt, nextoffset, namestroff, len, l, k);
    if err == 0 { PropSetGrown(v0, v, fdt.v, c, nodeoffset, l, [Prop(name, w)] + l.node.props, prop, 0); }
  }

  /** The end of the blocks once a new property of that name and length is in. */
  function AddSize(h: Header, v: View, name: bytes, len: nat): nat {
    Used(h) + NewStringSize(v.tab, name) + 12 + Align4(len)
  }

  /** Only the strings block may be longer. */
  predicate Renamed(v: View, v': View) {
    v.tab <= v'.tab && v' == v.(tab := v'.tab)
  }

  lemma PropSetGrown(v0: View, v: View, v': View, c: Cut, off: int, l: Loc, ps: seq<Prop>, prop: int, q: nat)
    requires Renamed(v0, v) && PropSet(v, v', c, off, l, ps, prop, q)
    ensures PropSet(v0, v', c, off, l, ps, prop, q)
  {
    hide Whole, View.NodeAt, View.PropAt;
  }

  /** A write inside the data area of a property, in memory. */
  lemma PokeBytes(m: bytes, m': bytes, p: nat, nameoff: u32, value: bytes, pad: bytes, idx: nat, val: bytes, u: nat)
    requires WfTok(TProp(nameoff, value, pad)) && idx + |val| <= |value|
    requires p + 12 + |value| + |pad| <= u <= |m|
    requires m[p..p + 12 + |value| + |pad|] == TokBytes(TProp(nameoff, value, pad))
    requires m' == Written(m, p + 12 + idx, val)
    ensures var n := p + 12 + |value| + |pad|;
      Edited(m, m', p, n, TokBytes(TProp(nameoff, Written(value, idx, val), pad)), u)
  {
    hide Word, TokBytes, Aligned, Written, Edited;
    var n, hd := p + 12 + |value| + |pad|, Word(FDT_PROP) + (Word(|value|) + Word(nameoff));
    var w := Written(value, idx, val);
    TokSplit(nameoff, value, pad);
    TokSplit(nameoff, w, pad);
    assert m == m[..p] + m[p..n] + m[n..];
    WrittenInside(m[..p], hd, value, pad, m[n..], idx, val);
    EditedMiddle(m[..p], hd + value + pad, hd + w + pad, m[n..], u);
  }

  lemma TokSplit(nameoff: u32, value: bytes, pad: bytes)
    requires |value| < TWO31
    ensures TokBytes(TProp(nameoff, value, pad)) == Word(FDT_PROP) + (Word(|value|) + Word(nameoff)) + value + pad
  {
    hide Word, TokBytes;
    PropTail(nameoff, value, pad);
    var w := TokBytes(TProp(nameoff, value, pad));
    assert w == w[..4] + w[4..];
  }

  lemma WrittenInside(a: bytes, hd: bytes, value: bytes, pad: bytes, z: bytes, idx: nat, val: bytes)
    requires idx + |val| <= |value|
    ensures Written(a + (hd + value + pad) + z, |a| + |hd| + idx, val) == a + (hd + Written(value, idx, val) + pad) + z
  {
  }

  lemma EditedMiddle(a: bytes, w0: bytes, w: bytes, z: bytes, u: nat)
    requires |w0| == |w| && |a| + |w| <= u <= |a| + |w| + |z|
    ensures Edited(a + w0 + z, a + w + z, |a|, |a| + |w0|, w, u)
  {
    var m, m' := a + w0 + z, a + w + z;
    var e := |a| + |w|;
    assert m'[e..u] == z[..u - e] && m[e..u] == z[..u - e];
  }

  /** `memcpy` into the data of a property: nothing but those bytes changes. */
  method WriteValue(fdt: Blob, prop: int, idx: nat, val: bytes, ghost l: Loc, ghost q: nat) returns (ghost c: Cut)
    requires fdt.Valid() && fdt.v.PropAt(prop, l, q) && idx + |val| <= |l.node.props[q].value|
    modifies fdt.buf, fdt`v
    ensures fdt.Valid()
    ensures forall off :: old(fdt.v).NodeAt(off, l) ==>
      PropSet(old(fdt.v), fdt.v, c, off, l,
              l.node.props[q := Prop(l.node.props[q].name, Written(l.node.props[q].value, idx, val))], prop, q)
    ensures c.j == c.k + 1 && fdt.v.tab == old(fdt.v.tab)
    ensures SameOffsets(old(fdt.v.toks), fdt.v.toks)
  {
    hide Ser, Flatten, Whole, InsideFrom, Abs, Off, From, Before, Edited, Reserves, Region, Tab, RsvArea, Editable,
      View.Ok, Written, Word, PropSet, Body, TagAt, TokBytes, SameOffsets;
    ghost var h, m, v := fdt.h, fdt.buf[..], fdt.v;
    ghost var k: nat :| v.Holds(k, l, q) && prop == Off(v.toks, k);
    DataInside(h, m, v, fdt.rsv, k, l, q);
    Memcpy(fdt.buf, fdt.h.offStruct + prop + 12 + idx, val);
    fdt.v, c := PokedView(h, m, v, fdt.rsv, fdt.buf[..], l, q, k, idx, val);
  }

  /** The data area of a property is inside the structure block. */
  lemma DataInside(h: Header, m: bytes, v: View, rsv: seq<Rsv>, k: nat, l: Loc, q: nat)
    requires Editable(h, m, v, rsv) && v.Holds(k, l, q)
    ensures h.offStruct + Off(v.toks, k) + 12 + |l.node.props[q].value| <= Used(h) <= |m|
  {
    hide Ser, Off, Editable, View.Ok, Reserves, TagAt;
    EditableBlocks(h, m, v, rsv);
    PropExtent(h, m, v, rsv, k, l, q);
  }

  lemma PokedView(h: Header, m: bytes, v: View, rsv: seq<Rsv>, m': bytes, l: Loc, q: nat, k: nat, idx: nat, val: bytes)
    returns (v': View, c: Cut)
    requires Editable(h, m, v, rsv) && v.Holds(k, l, q) && idx + |val| <= |l.node.props[q].value|
    requires h.offStruct + Off(v.toks, k) + 12 + |l.node.props[q].value| <= Used(h) <= |m|
    requires m' == Written(m, h.offStruct + Off(v.toks, k) + 12 + idx, val)
    ensures Editable(h, m', v', rsv) && v'.tab == v.tab && c.j == c.k + 1 && SameOffsets(v.toks, v'.toks)
    ensures forall off :: v.NodeAt(off, l) ==>
      PropSet(v, v', c, off, l,
              l.node.props[q := Prop(l.node.props[q].name, Written(l.node.props[q].value, idx, val))], Off(v.toks, k),
                q)
  {
    hide Ser, Flatten, Whole, InsideFrom, Abs, Off, From, Before, Edited, Reserves, Region, Tab, RsvArea, Editable,
      View.Ok, Written, Word, PropSet, Body, TagAt, TokBytes, SameOffsets;
    EditableBlocks(h, m, v, rsv);
    LegibleOf(h, m, v, rsv);
    PropExtent(h, m, v, rsv, k, l, q);
    HoldsRest(v, k, l, q);
    TokenInMemory(h, m, v, k);
    var t := v.toks[k];
    ViewWf(v);
    WfAt(v.toks, k);
    var w := Written(t.value, idx, val);
    TokLen(t.nameoff, t.value, t.pad);
    TokLen(t.nameoff, w, t.pad);
    PokeBytes(m, m', h.offStruct + Off(v.toks, k), t.nameoff, t.value, t.pad, idx, val, Used(h));
    v', c := ReplacedView(h, m, v, rsv, h, m', l, q, k, w, t.pad);
    SameOffsetsIf(v.toks, c, k, t, TProp(t.nameoff, w, t.pad));
  }

  lemma TokLen(nameoff: u32, value: bytes, pad: bytes)
    ensures |TokBytes(TProp(nameoff, value, pad))| == 12 + |value| + |pad|
  {
  }

  /** Every token has the offset and the kind it had. */
  predicate SameOffsets(ts: seq<Token>, ts': seq<Token>) {
    |ts| == |ts'| && (forall i :: 0 <= i <= |ts| ==> Off(ts', i) == Off(ts, i))
    && (forall i :: 0 <= i < |ts| ==> TagOf(ts'[i]) == TagOf(ts[i]))
  }

  lemma SameOffsetsIf(ts: seq<Token>, c: Cut, k: nat, t: Token, t': Token)
    requires k < |ts| && ts[k] == t && c == Cut(k, k + 1, [t'])
    requires |TokBytes(t')| == |TokBytes(t)| && TagOf(t') == TagOf(t)
    ensures SameOffsets(ts, Spliced(ts, c))
  {
    hide Ser, Off, TokBytes, TagOf;
    OffStep(ts, k);
    SerOne(t');
    forall i | 0 <= i <= |ts| ensures Off(Spliced(ts, c), i) == Off(ts, i) {
      SplicedOffsets(ts, c, i);
    }
  }

  lemma ViewOfEditable(h: Header, m: bytes, v: View, rsv: seq<Rsv>)
    requires Editable(h, m, v, rsv)
    ensures v.Ok()
  {
  }

  /** Two edits of one property are one edit. */
  lemma PropSetThen(v: View, v1: View, c1: Cut, v2: View, c2: Cut, off: int, l: Loc, ps1: seq<Prop>, ps2: seq<Prop>,
                    prop: int, q: nat)
    requires v.Ok() && PropSet(v, v1, c1, off, l, ps1, prop, q)
    requires PropSet(v1, v2, c2, off, WithProps(l, ps1), ps2, prop, q) && c2.j == c2.k + 1
    ensures PropSet(v, v2, Cut(c1.k, c1.j, c2.ins), off, l, ps2, prop, q)
  {
    hide Ser, Flatten, Whole, Abs, Off, View.Ok, View.NodeAt, View.PropAt;
    SplicedOffsets(v.toks, c1, c1.k);
    var a, b := v.toks[..c1.k], v.toks[c1.j..];
    SameToken(v1.toks, c1.k, c2.k);
    assert v1.toks == a + c1.ins + b;
    assert v1.toks[..c1.k] == a && v1.toks[c1.k + 1..] == b;
    assert Spliced(v1.toks, c2) == a + c2.ins + b;
  }

  lemma SameToken(ts: seq<Token>, i: nat, j: nat)
    requires i <= |ts| && j <= |ts| && Off(ts, i) == Off(ts, j)
    ensures i == j
  {
    hide Ser, Off;
    if i < j { OffMono(ts, i, j); } else { OffMono(ts, j, i); }
  }

  /** What setting a property does to the blob, when the size allows it. */
  ghost predicate PropWasSet(h: Header, v: View, h': Header, v': View, c: Cut, off: int, l: Loc, name: bytes, w: bytes,
                             prop: int) {
    && Used(h') == SetSize(h, v, l, name, |w|)
    && off < prop < TWO31
    && PropSet(v, v', c, off, l, SetAt(l.node.props, name, w), prop, PosOf(l.node.props, name))
  }

  /** `fdt_setprop_placeholder`: room for a value of `len` bytes; the bytes `w` that are there stay. The call fails
      for lack of room exactly when the blocks would end after `totalsize`, and then the tree is unchanged. */
  method SetpropPlaceholder(fdt: Blob, nodeoffset: int, name: bytes, len: nat, ghost l: Loc)
    returns (err: int, prop: int, ghost w: bytes, ghost c: Cut)
    requires RwError(fdt.h) == 0 ==> fdt.Valid() && fdt.v.Handle(nodeoffset, l)
    requires nodeoffset < TWO31 && len < TWO31 && NUL !in name
    modifies fdt.buf, fdt`h, fdt`v
    ensures RwError(old(fdt.h)) != 0 ==> err == RwError(old(fdt.h)) && fdt.h == old(fdt.h) && fdt.v == old(fdt.v)
    ensures RwError(old(fdt.h)) == 0 ==> fdt.Valid() && fdt.h.totalsize == old(fdt.h.totalsize)
    ensures RwError(old(fdt.h)) == 0 && NodeCheck(old(fdt.v.s), nodeoffset) < 0 ==>
      err == -ERR_BADOFFSET && fdt.v == old(fdt.v)
    ensures RwError(old(fdt.h)) == 0 && NodeCheck(old(fdt.v.s), nodeoffset) >= 0 ==>
      if SetSize(old(fdt.h), old(fdt.v), l, name, len) > fdt.h.totalsize
      then err == -ERR_NOSPACE && Renamed(old(fdt.v), fdt.v)
      else (err == 0 && |w| == len && PropWasSet(old(fdt.h), old(fdt.v), fdt.h, fdt.v, c, nodeoffset, l, name, w, prop)
            && (FindProp(l.node.props, name, 0) < |l.node.props| ==>
                Kept(l.node.props[FindProp(l.node.props, name, 0)].value, w)))
    ensures RwError(old(fdt.h)) == 0 && NodeCheck(old(fdt.v.s), nodeoffset) >= 0 ==>
      Filled(err, SetFill(LevelOf(old(fdt.h), old(fdt.v)), l.node.props, name, len), LevelOf(fdt.h, fdt.v))
  {
    hide Region, Tab, Editable, View.Ok, PropSet, Kept, NodeCheck, Align4, Blob.Valid, View.Handle;
    w, c, prop := [], Cut(0, 0, []), -1;
    err := RwCheckHeader(fdt);
    if err != 0 { return; }
    err, prop, w, c := ResizeProperty(fdt, nodeoffset, name, len, l);
    if err == -ERR_NOTFOUND {
      err, prop, w, c := AddProperty(fdt, nodeoffset, name, len, l);
    }
  }

  /** `fdt_setprop` refines the update of one property of one node. */
  method Setprop(fdt: Blob, nodeoffset: int, name: bytes, val: bytes, ghost l: Loc)
    returns (err: int, ghost prop: int, ghost c: Cut)
    requires RwError(fdt.h) == 0 ==> fdt.Valid() && fdt.v.Handle(nodeoffset, l)
    requires nodeoffset < TWO31 && |val| < TWO31 && NUL !in name
    modifies fdt.buf, fdt`h, fdt`v
    ensures RwError(old(fdt.h)) != 0 ==> err == RwError(old(fdt.h)) && fdt.h == old(fdt.h) && fdt.v == old(fdt.v)
    ensures RwError(old(fdt.h)) == 0 ==> fdt.Valid() && fdt.h.totalsize == old(fdt.h.totalsize)
    ensures RwError(old(fdt.h)) == 0 && NodeCheck(old(fdt.v.s), nodeoffset) < 0 ==>
      err == -ERR_BADOFFSET && fdt.v == old(fdt.v)
    ensures RwError(old(fdt.h)) == 0 && NodeCheck(old(fdt.v.s), nodeoffset) >= 0 ==>
      if SetSize(old(fdt.h), old(fdt.v), l, name, |val|) > fdt.h.totalsize
      then err == -ERR_NOSPACE && Renamed(old(fdt.v), fdt.v)
      else err == 0 && PropWasSet(old(fdt.h), old(fdt.v), fdt.h, fdt.v, c, nodeoffset, l, name, val, prop)
    ensures RwError(old(fdt.h)) == 0 && NodeCheck(old(fdt.v.s), nodeoffset) >= 0 ==>
      Filled(err, SetFill(LevelOf(old(fdt.h), old(fdt.v)), l.node.props, name, |val|), LevelOf(fdt.h, fdt.v))
  {
    hide Region, Tab, Editable, View.Ok, Kept, NodeCheck, Align4, Whole, View.NodeAt, View.PropAt;
    ghost var v := fdt.v;
    ghost var w;
    var at: int;
    err, at, w, c := SetpropPlaceholder(fdt, nodeoffset, name, |val|, l);
    prop := at;
    if err != 0 { return; }
    ghost var v1, h1, c1 := fdt.v, fdt.h, c;
    ghost var c2 := WriteValue(fdt, at, 0, val, WithProps(l, SetAt(l.node.props, name, w)), PosOf(l.node.props, name));
    ViewOfEditable(old(fdt.h), old(fdt.buf[..]), v, old(fdt.rsv));
    c := WholeValue(old(fdt.h), v, h1, v1, c1, fdt.v, c2, nodeoffset, l, name, w, val, prop);
  }

  /** Writing all bytes of a value that has just been given its length. */
  lemma WholeValue(h: Header, v: View, h1: Header, v1: View, c1: Cut, v2: View, c2: Cut, off: int, l: Loc,
                   name: bytes, w: bytes, val: bytes, prop: int) returns (c: Cut)
    requires v.Ok() && PropWasSet(h, v, h1, v1, c1, off, l, name, w, prop) && |w| == |val| && c2.j == c2.k + 1
    requires var ps, q := SetAt(l.node.props, name, w), PosOf(l.node.props, name);
      PropSet(v1, v2, c2, off, WithProps(l, ps), ps[q := Prop(ps[q].name, Written(ps[q].value, 0, val))], prop, q)
    ensures PropWasSet(h, v, h1, v2, c, off, l, name, val, prop)
  {
    hide PropSet, View.Ok, SetSize;
    var ps, q := SetAt(l.node.props, name, w), PosOf(l.node.props, name);
    assert Written(w, 0, val) == val;
    assert ps[q := Prop(name, val)] == SetAt(l.node.props, name, val);
    PropSetThen(v, v1, c1, v2, c2, off, l, ps, SetAt(l.node.props, name, val), prop, q);
    c := Cut(c1.k, c1.j, c2.ins);
  }

  /** What `fdt_appendprop` leaves in the property. */
  function Extended(ps: seq<Prop>, name: bytes, val: bytes): bytes {
    var q := FindProp(ps, name, 0);
    if q < |ps| then ps[q].value + val else val
  }

  /** `fdt_appendprop`: the old value followed by the new bytes, or a new property. */
  method Appendprop(fdt: Blob, nodeoffset: int, name: bytes, val: bytes, ghost l: Loc)
    returns (err: int, ghost prop: int, ghost c: Cut)
    requires RwError(fdt.h) == 0 ==> fdt.Valid() && fdt.v.Handle(nodeoffset, l)
    requires nodeoffset < TWO31 && |Extended(l.node.props, name, val)| < TWO31 && |val| < TWO31 && NUL !in name
    modifies fdt.buf, fdt`h, fdt`v
    ensures RwError(old(fdt.h)) != 0 ==> err == RwError(old(fdt.h)) && fdt.h == old(fdt.h) && fdt.v == old(fdt.v)
    ensures RwError(old(fdt.h)) == 0 ==> fdt.Valid() && fdt.h.totalsize == old(fdt.h.totalsize)
    ensures RwError(old(fdt.h)) == 0 && NodeCheck(old(fdt.v.s), nodeoffset) < 0 ==>
      err == -ERR_BADOFFSET && fdt.v == old(fdt.v)
    ensures RwError(old(fdt.h)) == 0 && NodeCheck(old(fdt.v.s), nodeoffset) >= 0 ==>
      var w := Extended(l.node.props, name, val);
      if SetSize(old(fdt.h), old(fdt.v), l, name, |w|) > fdt.h.totalsize
      then err == -ERR_NOSPACE && Renamed(old(fdt.v), fdt.v)
      else err == 0 && PropWasSet(old(fdt.h), old(fdt.v), fdt.h, fdt.v, c, nodeoffset, l, name, w, prop)
    ensures RwError(old(fdt.h)) == 0 && NodeCheck(old(fdt.v.s), nodeoffset) >= 0 ==>
      Filled(err, SetFill(LevelOf(old(fdt.h), old(fdt.v)), l.node.props, name,
                          |Extended(l.node.props, name, val)|), LevelOf(fdt.h, fdt.v))
  {
    hide Region, Tab, Editable, View.Ok, NodeCheck, Align4, Whole, View.NodeAt, View.PropAt, Min, Blob.Valid, PropSet;
    prop, c := -1, Cut(0, 0, []);
    err := RwCheckHeader(fdt);
    if err != 0 { return; }
    ViewOfBlob(fdt);
    var at, oldlen := GetPropertyNamelen(fdt, nodeoffset, name, l);
    if at >= 0 {
      ghost var q := FindProp(l.node.props, name, 0);
      err, c := AppendThere(fdt, nodeoffset, at, oldlen, val, l, q);
      prop := at;
    } else {
      err, prop, c := AppendNew(fdt, nodeoffset, name, val, l);
    }
  }

  /** The first branch of `fdt_appendprop`. */
  method AppendThere(fdt: Blob, ghost nodeoffset: int, at: int, oldlen: nat, val: bytes, ghost l: Loc, ghost q: nat)
    returns (err: int, ghost c: Cut)
    requires fdt.Valid() && fdt.v.NodeAt(nodeoffset, l) && fdt.v.PropAt(at, l, q)
    requires q < |l.node.props| && oldlen == |l.node.props[q].value| && oldlen + |val| < TWO31
    modifies fdt.buf, fdt`h, fdt`v
    ensures fdt.Valid() && fdt.h.totalsize == old(fdt.h.totalsize)
    ensures var used := Used(old(fdt.h)) - Align4(oldlen) + Align4(oldlen + |val|);
      if used > fdt.h.totalsize then err == -ERR_NOSPACE && fdt.v == old(fdt.v) && fdt.h == old(fdt.h)
      else (err == 0 && Used(fdt.h) == used && fdt.v.tab == old(fdt.v.tab)
            && PropSet(old(fdt.v), fdt.v, c, nodeoffset, l,
                       l.node.props[q := Prop(l.node.props[q].name, l.node.props[q].value + val)], at, q))
  {
    hide Region, Tab, Editable, View.Ok, NodeCheck, Align4, Whole, View.NodeAt, View.PropAt, Min, PropSet, Kept;
    ghost var v, value, name := fdt.v, l.node.props[q].value, l.node.props[q].name;
    ghost var w: bytes;
    ViewOfBlob(fdt);
    err, w, c := ResizeAt(fdt, at, oldlen, oldlen + |val|, l, q);
    if err != 0 { return; }
    ghost var ps1, v1 := l.node.props[q := Prop(name, w)], fdt.v;
    ghost var ps2 := l.node.props[q := Prop(name, value + val)];
    AtOfPropSet(v, v1, c, nodeoffset, l, ps1, at, q);
    ghost var c2 := WriteValue(fdt, at, oldlen, val, WithProps(l, ps1), q);
    WrittenAfter(value, w, val);
    assert ps1[q := ps2[q]] == ps2;
    PropSetThen(v, v1, c, fdt.v, c2, nodeoffset, l, ps1, ps2, at, q);
    c := Cut(c.k, c.j, c2.ins);
  }

  /** The second branch of `fdt_appendprop`. */
  method AppendNew(fdt: Blob, nodeoffset: int, name: bytes, val: bytes, ghost l: Loc)
    returns (err: int, ghost prop: int, ghost c: Cut)
    requires fdt.Valid() && nodeoffset < TWO31 && fdt.v.Handle(nodeoffset, l) && |val| < TWO31 && NUL !in name
    modifies fdt.buf, fdt`h, fdt`v
    ensures fdt.Valid() && fdt.h.totalsize == old(fdt.h.totalsize)
    ensures NodeCheck(old(fdt.v.s), nodeoffset) < 0 ==> err == -ERR_BADOFFSET && fdt.v == old(fdt.v)
    ensures NodeCheck(old(fdt.v.s), nodeoffset) >= 0 ==>
      var used := AddSize(old(fdt.h), old(fdt.v), name, |val|);
      if used > fdt.h.totalsize then err == -ERR_NOSPACE && Renamed(old(fdt.v), fdt.v)
      else (err == 0 && Used(fdt.h) == used && nodeoffset < prop < TWO31
            && PropSet(old(fdt.v), fdt.v, c, nodeoffset, l, [Prop(name, val)] + l.node.props, prop, 0))
    ensures NodeCheck(old(fdt.v.s), nodeoffset) >= 0 ==>
      Filled(err, AddFill(LevelOf(old(fdt.h), old(fdt.v)), name, |val|), LevelOf(fdt.h, fdt.v))
  {
    hide Region, Tab, Editable, View.Ok, NodeCheck, Align4, Whole, View.NodeAt, View.PropAt, Min, PropSet, AddSize;
    ghost var v := fdt.v;
    ghost var w: bytes;
    var at: int;
    ViewOfBlob(fdt);
    err, at, w, c := AddProperty(fdt, nodeoffset, name, |val|, l);
    prop := at;
    if err != 0 { return; }
    ghost var ps1, ps2, v1 := [Prop(name, w)] + l.node.props, [Prop(name, val)] + l.node.props, fdt.v;
    AtOfPropSet(v, v1, c, nodeoffset, l, ps1, prop, 0);
    ghost var c2 := WriteValue(fdt, at, 0, val, WithProps(l, ps1), 0);
    assert Written(w, 0, val) == val;
    assert ps1[0 := ps2[0]] == ps2;
    PropSetThen(v, v1, c, fdt.v, c2, nodeoffset, l, ps1, ps2, prop, 0);
    c := Cut(c.k, c.j, c2.ins);
  }

  lemma AtOfPropSet(v: View, v': View, c: Cut, off: int, l: Loc, ps: seq<Prop>, prop: int, q: nat)
    requires PropSet(v, v', c, off, l, ps, prop, q)
    ensures v'.NodeAt(off, WithProps(l, ps)) && v'.PropAt(prop, WithProps(l, ps), q) && q < |ps|
  {
  }

  lemma WrittenAfter(value: bytes, w: bytes, val: bytes)
    requires |w| == |value| + |val| && Kept(value, w)
    ensures Written(w, |value|, val) == value + val
  {
    assert w[..|value|] == value[..|value|] == value;
    assert w[|value| + |val|..] == [];
  }

  lemma ViewOfBlob(fdt: Blob)
    requires fdt.Valid()
    ensures fdt.v.Ok() && fdt.Readable() && HeaderError(fdt.h) == 0 && RwError(fdt.h) == 0
  {
    hide View.Ok, Ser, Reserves;
  }

  /** Tokens that leave no event. */
  predicate Quiet(ts: seq<Token>) {
    forall i :: 0 <= i < |ts| ==> ts[i] == TNop
  }

  lemma {:induction false} QuietAbs(ts: seq<Token>, tab: bytes)
    requires Quiet(ts)
    ensures Abs(ts, tab) == [] && Wf(ts) && Named(ts, tab)
  {
    if ts != [] { QuietAbs(ts[1..], tab); }
  }

  function Removed(ps: seq<Prop>, q: nat): seq<Prop>
    requires q < |ps|
  {
    ps[..q] + ps[q + 1..]
  }

  /** A node at or before `off` keeps its offset when the tree becomes the one around `l'`. */
  ghost predicate Regrown(v: View, v': View, c: Cut, off: int, l': Loc) {
    v'.tree == Whole(l') && v'.NodeAt(off, l') && EditedBy(v, v', c, off)
  }

  /** The view after a property was taken out, or overwritten with FDT_NOP. */
  lemma ErasedPropView(h: Header, m: bytes, v: View, rsv: seq<Rsv>, h': Header, m': bytes,
                       l: Loc, q: nat, k: nat, ins: seq<Token>) returns (v': View)
    requires Editable(h, m, v, rsv) && v.Holds(k, l, q) && |m'| == |m| && Quiet(ins)
    requires Edited(m, m', h.offStruct + Off(v.toks, k), h.offStruct + Off(v.toks, k + 1), Ser(ins), Used(h))
    requires Resized(h, h', |TokBytes(v.toks[k])|, |Ser(ins)|)
    requires Used(h') <= h'.totalsize
    ensures Editable(h', m', v', rsv) && v'.tab == v.tab && v'.toks == Spliced(v.toks, Cut(k, k + 1, ins))
    ensures v'.tree == Whole(WithProps(l, Removed(l.node.props, q)))
    ensures forall off :: v.NodeAt(off, l) ==>
      Regrown(v, v', Cut(k, k + 1, ins), off, WithProps(l, Removed(l.node.props, q)))
  {
    hide Ser, Flatten, Whole, InsideFrom, Abs, Off, From, Before, TokBytes, Edited, Reserves, Region, Tab, RsvArea;
    var l' := WithProps(l, Removed(l.node.props, q));
    var c := Cut(k, k + 1, ins);
    HoldsRest(v, k, l, q);
    AbsBeforeProp(v, k, l, q);
    EventsRemoved(l, q);
    QuietAbs(ins, v.tab);
    assert Before(l, q) + [] + InsideFrom(l, q + 1) == Before(l, q) + InsideFrom(l, q + 1);
    OffStep(v.toks, k);
    TokenCheck(v, k);
    OpensBeforeAll(v, k, l, q);
    v' := StructEdit(h, m, v, rsv, h', m', c, Whole(l'));
    forall off | v.NodeAt(off, l)
      ensures Regrown(v, v', c, off, l')
    {
      var kn: nat :| v.Opens(kn, l) && off == Off(v.toks, kn);
      OpensBeforeHolds(v, kn, k, l, q);
      OffMono(v.toks, kn, k);
      NodeKept(v, v', c, off, off, l, l');
    }
  }

  /** A splice that only closes a gap. */
  lemma SpliceAway(m: bytes, m': bytes, p: nat, oldlen: nat, u: nat)
    requires p + oldlen <= u <= |m| && m' == Moved(m, p, p + oldlen, u - p - oldlen)
    ensures Edited(m, m', p, p + oldlen, [], u)
  {
    MovedParts(m, p, p + oldlen, u - p - oldlen);
  }

  /** `fdt_delprop`: the property is gone and everything after it moved down by its size. */
  method Delprop(fdt: Blob, nodeoffset: int, name: bytes, ghost l: Loc) returns (err: int, ghost c: Cut)
    requires RwError(fdt.h) == 0 ==> fdt.Valid() && fdt.v.Handle(nodeoffset, l)
    requires nodeoffset < TWO31
    modifies fdt.buf, fdt`h, fdt`v
    ensures RwError(old(fdt.h)) != 0 ==> err == RwError(old(fdt.h)) && fdt.h == old(fdt.h) && fdt.v == old(fdt.v)
    ensures RwError(old(fdt.h)) == 0 ==> fdt.Valid() && fdt.h.totalsize == old(fdt.h.totalsize)
    ensures RwError(old(fdt.h)) == 0 && NodeCheck(old(fdt.v.s), nodeoffset) < 0 ==>
      err == -ERR_BADOFFSET && fdt.v == old(fdt.v)
    ensures RwError(old(fdt.h)) == 0 && NodeCheck(old(fdt.v.s), nodeoffset) >= 0 ==>
      var q := FindProp(l.node.props, name, 0);
      if q == |l.node.props| then err == -ERR_NOTFOUND && fdt.v == old(fdt.v) && fdt.h == Downgraded(old(fdt.h))
      else (err == 0 && Used(fdt.h) == Used(old(fdt.h)) - 12 - Align4(|l.node.props[q].value|)
            && Regrown(old(fdt.v), fdt.v, c, nodeoffset, WithProps(l, Removed(l.node.props, q))))
  {
    hide Region, Tab, Editable, View.Ok, NodeCheck, Align4, Whole, Min, Off, Ser, RsvArea, Moved, TagAt, Regrown,
      Reserves;
    c := Cut(0, 0, []);
    err := RwCheckHeader(fdt);
    if err != 0 { return; }
    ghost var h, m, v, q := fdt.h, fdt.buf[..], fdt.v, FindProp(l.node.props, name, 0);
    ViewOfBlob(fdt);
    EditableBounds(h, m, v, fdt.rsv);
    var prop, len := GetPropertyNamelen(fdt, nodeoffset, name, l);
    if prop < 0 { return len, c; }
    PropSpan(h, m, v, fdt.rsv, prop, l, q);
    err := SpliceStruct(fdt, fdt.h.offStruct + prop, 12 + Align4(len), 0);
    fdt.v, c := DroppedProp(h, m, v, fdt.rsv, fdt.h, fdt.buf[..], l, q, prop);
  }

  lemma EditableBounds(h: Header, m: bytes, v: View, rsv: seq<Rsv>)
    requires Editable(h, m, v, rsv)
    ensures Ordered(h, 16, h.sizeStruct) && h.totalsize <= |m| < TWO31 && h.sizeStruct == |v.s|
  {
    hide Ser, View.Ok, Reserves, Editable;
    EditableBlocks(h, m, v, rsv);
  }

  lemma PropSpan(h: Header, m: bytes, v: View, rsv: seq<Rsv>, prop: int, l: Loc, q: nat)
    requires Editable(h, m, v, rsv) && v.PropAt(prop, l, q)
    ensures 0 <= prop && prop + 12 + Align4(|l.node.props[q].value|) <= h.sizeStruct
  {
    hide Off, Editable, Align4;
    var k: nat :| v.Holds(k, l, q) && prop == Off(v.toks, k);
    PropExtent(h, m, v, rsv, k, l, q);
  }

  /** The view after a property was spliced away. */
  lemma DroppedProp(h: Header, m: bytes, v: View, rsv: seq<Rsv>, h': Header, m': bytes, l: Loc, q: nat, prop: nat)
    returns (v': View, c: Cut)
    requires Editable(h, m, v, rsv) && v.PropAt(prop, l, q)
    requires var p, n := h.offStruct + prop, 12 + Align4(|l.node.props[q].value|);
      p + n <= Used(h) <= |m| && m' == Moved(m, p, p + n, Used(h) - p - n) && Resized(h, h', n, 0)
    requires Used(h') <= h'.totalsize
    ensures Editable(h', m', v', rsv)
    ensures forall off :: v.NodeAt(off, l) ==> Regrown(v, v', c, off, WithProps(l, Removed(l.node.props, q)))
  {
    hide Off, Editable, Align4, Moved, Edited, Regrown, TokBytes, Ser, Whole;
    var k: nat :| v.Holds(k, l, q) && prop == Off(v.toks, k);
    var n := 12 + Align4(|l.node.props[q].value|);
    PropExtent(h, m, v, rsv, k, l, q);
    OffStep(v.toks, k);
    SerNil();
    c := Cut(k, k + 1, []);
    SpliceAway(m, m', h.offStruct + prop, n, Used(h));
    v' := ErasedPropView(h, m, v, rsv, h', m', l, q, k, []);
  }

  lemma SerNil()
    ensures Ser([]) == []
  {
  }
}
