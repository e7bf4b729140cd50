/** fdt_ro.c: looking nodes and properties up. */
module FdtRo {
  import opened Bytes
  import opened Strings
  import opened CString
  import opened Trees
  import opened Tokens
  import opened Lexer
  import opened Walk
  import opened Views
  import opened Fdt

  /** `nextprop_`, from token `k`, when properties from `q` on are left. */
  method ScanProps(fdt: Blob, start: int, ghost l: Loc, ghost q: nat, ghost k: nat) returns (r: int)
    requires fdt.Readable() && Whole(l) == fdt.v.tree && q <= |l.node.props|
    requires Rest(fdt.v, k, InsideFrom(l, q)) && start == Off(fdt.v.toks, k)
    ensures q == |l.node.props| ==> r == -ERR_NOTFOUND
    ensures q < |l.node.props| ==> fdt.v.PropAt(r, l, q) && start <= r < TWO31
  {
    hide Ser, Off, TagAt, Region, Tab, Flatten, Named, Wf, Abs, InsideFrom;
    ghost var v := fdt.v;
    ghost var j := k;
    var offset := start;
    InsideStep(l, q);
    while true
      invariant k <= j < |v.toks| && offset == Off(v.toks, j) && Rest(v, j, InsideFrom(l, q))
      decreases |v.toks| - j
    {
      TokenCheck(v, j);
      TokenEvent(v, j, InsideFrom(l, q));
      var tag, next := NextTag(fdt, offset);
      if tag == FDT_END {
        return if next >= 0 then -ERR_BADSTRUCTURE else next;
      }
      if tag == FDT_PROP {
        OffMono(v.toks, k, j);
        assert v.Holds(j, l, q);
        return offset;
      }
      RestStep(v, j, InsideFrom(l, q));
      offset := next;
      if tag != FDT_NOP { return -ERR_NOTFOUND; }
      j := j + 1;
    }
  }

  /** `fdt_first_property_offset`. */
  method FirstPropertyOffset(fdt: Blob, nodeoffset: int, ghost l: Loc) returns (r: int)
    requires fdt.Readable() && nodeoffset < TWO31 && fdt.v.Handle(nodeoffset, l)
    ensures NodeCheck(fdt.v.s, nodeoffset) < 0 ==> r == -ERR_BADOFFSET
    ensures NodeCheck(fdt.v.s, nodeoffset) >= 0 && l.node.props == [] ==> r == -ERR_NOTFOUND
    ensures NodeCheck(fdt.v.s, nodeoffset) >= 0 && l.node.props != [] ==>
      fdt.v.PropAt(r, l, 0) && nodeoffset < r < TWO31
  {
    hide Ser, Off, TagAt, Region, Tab, Flatten, Named, Wf, Abs, InsideFrom, NodeCheck;
    NodeCheckSign(fdt.v.s, nodeoffset);
    var next := CheckNodeOffset(fdt, nodeoffset);
    if next < 0 { return next; }
    ghost var k: nat :| fdt.v.Opens(k, l) && nodeoffset == Off(fdt.v.toks, k);
    TokenCheck(fdt.v, k);
    OpensInside(fdt.v, k, l);
    r := ScanProps(fdt, next, l, 0, k + 1);
  }

  /** `fdt_next_property_offset`. */
  method NextPropertyOffset(fdt: Blob, offset: int, ghost l: Loc, ghost q: nat) returns (r: int)
    requires fdt.Readable() && offset < TWO31
    requires PropCheck(fdt.v.s, offset) >= 0 ==> fdt.v.PropAt(offset, l, q)
    ensures PropCheck(fdt.v.s, offset) < 0 ==> r == -ERR_BADOFFSET
    ensures PropCheck(fdt.v.s, offset) >= 0 && q + 1 >= |l.node.props| ==> r == -ERR_NOTFOUND
    ensures PropCheck(fdt.v.s, offset) >= 0 && q + 1 < |l.node.props| ==>
      fdt.v.PropAt(r, l, q + 1) && offset < r < TWO31
  {
    hide Ser, Off, TagAt, Region, Tab, Flatten, Named, Wf, Abs, InsideFrom, PropCheck;
    NodeCheckSign(fdt.v.s, offset);
    var next := CheckPropOffset(fdt, offset);
    if next < 0 { return next; }
    ghost var k: nat :| fdt.v.Holds(k, l, q) && offset == Off(fdt.v.toks, k);
    TokenCheck(fdt.v, k);
    HoldsRest(fdt.v, k, l, q);
    r := ScanProps(fdt, next, l, q + 1, k + 1);
  }

  /** The first property of that name from `i` on, or the number of properties. */
  function FindProp(ps: seq<Prop>, name: bytes, i: nat): (q: nat)
    requires i <= |ps|
    ensures i <= q <= |ps|
    ensures q < |ps| ==> ps[q].name == name
    decreases |ps| - i
  {
    if i == |ps| || ps[i].name == name then i else FindProp(ps, name, i + 1)
  }

  /** `fdt_string_eq_`: the string at `stroffset` is exactly `s`. */
  method StringEq(fdt: Blob, stroffset: nat, s: bytes) returns (b: bool)
    requires fdt.Readable() && HasStr(fdt.v.tab, stroffset)
    ensures b <==> StrAt(fdt.v.tab, stroffset) == s
  {
    hide View.Ok, Region;
    ghost var t := fdt.v.tab;
    var m, p := fdt.buf[..], fdt.h.offStrings + stroffset;
    StringInMemory(m, fdt.h.offStrings, t, stroffset);
    var n := StrlenIso(m, p);
    if n != |s| {
      assert |StrAt(t, stroffset)| == n;
      return false;
    }
    var res := Memcmp(m, p, s);
    return res == 0;
  }

  /** A string of a block is the same string in the memory that holds the block. */
  lemma StringInMemory(m: bytes, o: nat, t: bytes, off: nat)
    requires o + |t| <= |m| && m[o..o + |t|] == t && HasStr(t, off)
    ensures NulAt(m, o + off) == o + NulAt(t, off) < |m|
    ensures m[o + off..o + NulAt(t, off)] == StrAt(t, off)
  {
    var j := NulAt(t, off);
    NulAtFirst(t, off);
    forall k | o + off <= k < o + j ensures m[k] != NUL { assert m[k] == t[k - o]; }
    assert m[o + j] == t[j];
    NulAtIs(m, o + off, o + j);
    Sub(m, o, t, off, j);
  }

  /** `fdt_get_property_namelen`: the first property of that name; a negative `prop` stands for the null pointer,
      and `len` is what `*lenp` receives. */
  method GetPropertyNamelen(fdt: Blob, nodeoffset: int, name: bytes, ghost l: Loc) returns (prop: int, len: int)
    requires fdt.Readable() && nodeoffset < TWO31 && fdt.v.Handle(nodeoffset, l)
    ensures NodeCheck(fdt.v.s, nodeoffset) < 0 ==> prop < 0 && len == -ERR_BADOFFSET
    ensures NodeCheck(fdt.v.s, nodeoffset) >= 0 ==>
      var q := FindProp(l.node.props, name, 0);
      if q == |l.node.props| then prop < 0 && len == -ERR_NOTFOUND
      else fdt.v.PropAt(prop, l, q) && 0 <= nodeoffset < prop < TWO31 && len == |l.node.props[q].value|
  {
    hide Ser, Off, TagAt, Region, Tab, Flatten, Named, Wf, Abs, InsideFrom, PropCheck, NodeCheck, Whole;
    ghost var ps, q := l.node.props, 0;
    NodeCheckSign(fdt.v.s, nodeoffset);
    var offset := FirstPropertyOffset(fdt, nodeoffset, l);
    while offset >= 0
      invariant NodeCheck(fdt.v.s, nodeoffset) < 0 ==> offset == -ERR_BADOFFSET
      invariant NodeCheck(fdt.v.s, nodeoffset) >= 0 ==>
        q <= |ps| && FindProp(ps, name, 0) == FindProp(ps, name, q)
      invariant NodeCheck(fdt.v.s, nodeoffset) >= 0 && q == |ps| ==> offset == -ERR_NOTFOUND
      invariant NodeCheck(fdt.v.s, nodeoffset) >= 0 && q < |ps| ==>
        fdt.v.PropAt(offset, l, q) && nodeoffset < offset < TWO31
      decreases if offset >= 0 then TWO31 - offset else 0
    {
      PropFields(fdt, offset, l, q);
      var namestroff := StructCell(fdt, offset + 8);
      var eq := StringEq(fdt, namestroff, name);
      if eq {
        len := StructCell(fdt, offset + 4);
        return offset, len;
      }
      offset := NextPropertyOffset(fdt, offset, l, q);
      q := q + 1;
    }
    return -1, offset;
  }

  /** The cells of a property header. */
  lemma PropFields(fdt: Blob, offset: int, l: Loc, q: nat)
    requires fdt.Readable() && fdt.v.PropAt(offset, l, q)
    ensures q < |l.node.props| && 0 <= offset && offset + 12 + |l.node.props[q].value| <= |fdt.v.s|
    ensures PropCheck(fdt.v.s, offset) >= 0
    ensures Be32(fdt.v.s, offset + 4) == |l.node.props[q].value|
    ensures HasStr(fdt.v.tab, Be32(fdt.v.s, offset + 8))
    ensures StrAt(fdt.v.tab, Be32(fdt.v.s, offset + 8)) == l.node.props[q].name
    ensures fdt.v.s[offset + 12..offset + 12 + |l.node.props[q].value|] == l.node.props[q].value
  {
    hide Ser, Off, TagAt, Region, Tab, Flatten, Named, Wf, Abs, InsideFrom, PropCheck, NodeCheck, Cell, Word, Whole,
      Aligned, TokBytes, Body;
    var v := fdt.v;
    var k: nat :| v.Holds(k, l, q) && offset == Off(v.toks, k);
    HoldsRest(v, k, l, q);
    TokenCheck(v, k);
    BytesAt(v.s, v.toks, k);
    WfAt(v.toks, k);
    var t := v.toks[k];
    var w := TokBytes(t);
    PropTail(t.nameoff, t.value, t.pad);
    PropCells(v.s, offset, w, Word(|t.value|), Word(t.nameoff), t.value, t.pad);
    CellOfWord(|t.value|);
    CellOfWord(t.nameoff);
  }

  /** A node name answers to `s`: it is `s`, or `s` without its unit address. */
  predicate Matches(name: bytes, s: bytes) {
    s <= name && (|name| == |s| || (AT_SIGN !in s && name[|s|] == AT_SIGN))
  }

  /** Where a node's name is in the structure block. */
  lemma NodeName(v: View, offset: int, l: Loc)
    requires v.Ok() && v.NodeAt(offset, l)
    ensures 0 <= offset && offset + 5 + |l.node.name| <= |v.s|
    ensures NUL !in l.node.name && Occurs(v.s, offset + 4, l.node.name)
    ensures NulAt(v.s, offset + 4) == offset + 4 + |l.node.name| && |v.s| < TWO31
  {
    hide Ser, Off, TagAt, Flatten, Named, Wf, Abs, Word, Whole, Aligned, TokBytes, Body;
    var k: nat :| v.Opens(k, l) && offset == Off(v.toks, k);
    OpensInside(v, k, l);
    BytesAt(v.s, v.toks, k);
    WfAt(v.toks, k);
    var t := v.toks[k];
    var w := TokBytes(t);
    BeginTail(t.name, t.pad);
    NameCells(v.s, offset, w, t.name, t.pad);
  }

  /** `fdt_nodename_eq_`. */
  method NodenameEq(fdt: Blob, offset: int, s: bytes, ghost l: Loc) returns (b: bool)
    requires fdt.Readable() && fdt.v.NodeAt(offset, l) && NUL !in s && |s| < TWO31
    ensures b <==> Matches(l.node.name, s)
  {
    hide View.Ok, View.NodeAt, TagAt, NulAt, Region, Tab, Occurs;
    NodeName(fdt.v, offset, l);
    var ok := OffsetPtr(fdt, offset + 4, |s| + 1);
    if !ok { return false; }
    var m, p := fdt.buf[..], fdt.h.offStruct + offset + 4;
    NameInMemory(fdt.h, m, fdt.v, offset + 4, l.node.name, s);
    var res := Memcmp(m, p, s);
    if res != 0 { return false; }
    if m[p + |s|] == NUL { return true; }
    var found, _ := Memchr(s, 0, AT_SIGN, |s|);
    assert s[0..|s|] == s;
    return !found && m[p + |s|] == AT_SIGN;
  }

  /** A node name in memory, compared with a string. */
  lemma NameInMemory(h: Header, m: bytes, v: View, o: nat, name: bytes, s: bytes)
    requires Legible(h, m, v) && NUL !in s && NUL !in name && Occurs(v.s, o, name) && o + |s| + 1 <= |v.s|
    ensures h.offStruct + o + |s| + 1 <= |m|
    ensures var p := h.offStruct + o;
      && (m[p..p + |s|] == s <==> s <= name)
      && (s <= name ==> m[p + |s|] == if |s| == |name| then NUL else name[|s|])
      && (s <= name && |s| < |name| ==> name[|s|] != NUL)
  {
    hide Legible, Occurs;
    InMemory(h, m, v, o, o + |s| + 1);
    var p, n := h.offStruct + o, |s|;
    SameSlice(m, p, v.s, o, n);
    MatchBytes(v.s, o, name, s);
  }

  lemma SameSlice(a: bytes, p: nat, b: bytes, q: nat, n: nat)
    requires p + n + 1 <= |a| && q + n + 1 <= |b| && a[p..p + n + 1] == b[q..q + n + 1]
    ensures a[p..p + n] == b[q..q + n] && a[p + n] == b[q + n]
  {
    SliceCut(a, p, p + n + 1, n);
    SliceCut(b, q, q + n + 1, n);
    assert a[p + n] == a[p..p + n + 1][n] && b[q + n] == b[q..q + n + 1][n];
  }

  lemma MatchBytes(t: bytes, o: nat, name: bytes, s: bytes)
    requires NUL !in s && NUL !in name && Occurs(t, o, name) && o + |s| + 1 <= |t|
    ensures t[o..o + |s|] == s <==> s <= name
    ensures s <= name ==> t[o + |s|] == if |s| == |name| then NUL else name[|s|]
    ensures s <= name && |s| < |name| ==> name[|s|] != NUL
  {
    var z := name + [NUL];
    assert forall k :: o <= k < o + |z| ==> t[k] == t[o..o + |z|][k - o] == z[k - o];
    var y := t[o..o + |s|];
    assert forall k :: 0 <= k < |s| && k <= |name| ==> y[k] == z[k];
    assert |s| > |name| ==> y[|name|] == NUL;
    assert |s| > |name| ==> s[|name|] in s;
    if |s| <= |name| {
      assert y == name[..|s|];
      if |s| < |name| { assert name[|s|] in name; }
    }
  }

  /** The first child from `i` on that answers to `s`, or the number of children. */
  function FindKid(ks: seq<Tree>, s: bytes, i: nat): (q: nat)
    requires i <= |ks|
    ensures i <= q <= |ks|
    ensures q < |ks| ==> Matches(ks[q].name, s)
    decreases |ks| - i
  {
    if i == |ks| || Matches(ks[i].name, s) then i else FindKid(ks, s, i + 1)
  }

  /** `fdt_subnode_offset_namelen`: the first direct child that answers to the name. */
  method SubnodeOffsetNamelen(fdt: Blob, offset0: int, s: bytes, ghost l: Loc) returns (r: int)
    requires fdt.Readable() && offset0 < TWO31 && (offset0 >= 0 ==> fdt.v.Handle(offset0, l))
    requires NUL !in s && |s| < TWO31
    ensures HeaderError(fdt.h) != 0 ==> r == HeaderError(fdt.h)
    ensures HeaderError(fdt.h) == 0 && offset0 < 0 ==> r == offset0
    ensures HeaderError(fdt.h) == 0 && offset0 >= 0 && NodeCheck(fdt.v.s, offset0) < 0 ==> r == -ERR_BADOFFSET
    ensures HeaderError(fdt.h) == 0 && offset0 >= 0 && NodeCheck(fdt.v.s, offset0) >= 0 ==>
      var i := FindKid(l.node.kids, s, 0);
      if i == |l.node.kids| then r == -ERR_NOTFOUND else fdt.v.NodeAt(r, Child(l, i)) && offset0 < r < TWO31
  {
    hide Ser, Region, Tab, Flatten, Named, Wf, Abs, NodeCheck, Whole, Next, TagAt, Matches, View.NodeAt;
    var err := HeaderError(fdt.h);
    if err != 0 { return err; }
    var depth := 0;
    var offset := offset0;
    ghost var m, i := l, 0;
    ghost var bad := offset0 < 0 || NodeCheck(fdt.v.s, offset0) < 0;
    while offset >= 0 && depth >= 0
      invariant offset0 < 0 ==> offset == offset0 && depth == 0
      invariant offset0 >= 0 && bad ==> (offset == offset0 || offset == -ERR_BADOFFSET) && depth == 0
      invariant !bad ==> Searching(fdt.v, l, s, offset0, offset, depth, m, i)
      decreases if offset < 0 || depth < 0 then 0 else 1, TWO31 - offset
    {
      if depth == 1 {
        var eq := NodenameEq(fdt, offset, s, m);
        if eq { return offset; }
      }
      NodeCheckSign(fdt.v.s, offset0);
      ghost var d, here := depth, offset;
      offset, depth := NextNode(fdt, offset, true, depth, m);
      if !bad {
        ghost var m1, i1 := SearchStep(fdt.v, l, s, offset0, here, d, m, i, offset, depth);
        m, i := m1, i1;
      }
    }
    return if depth < 0 then -ERR_NOTFOUND else offset;
  }

  /** The state of the search for a child: at `m`, `depth` levels below `l`, inside child `i`; every child
      before `i` was refused, and child `i` too once the walk is below it. */
  ghost predicate Searching(v: View, l: Loc, s: bytes, offset0: int, offset: int, depth: int, m: Loc, i: nat) {
    && i <= |l.node.kids| && FindKid(l.node.kids, s, 0) == FindKid(l.node.kids, s, i)
    && (depth < 0 ==> i == |l.node.kids|)
    && (depth >= 0 ==>
      && offset0 <= offset < TWO31 && v.NodeAt(offset, m) && depth <= Depth(m.ctx) && NodeCheck(v.s, offset) >= 0
      && (depth == 0 ==> m == l && offset == offset0 && i == 0)
      && (depth > 0 ==> i < |l.node.kids| && Up(m, depth - 1) == Child(l, i) && offset0 < offset)
      && (depth > 1 ==> !Matches(l.node.kids[i].name, s)))
  }

  lemma SearchStep(v: View, l: Loc, s: bytes, offset0: int, here: int, depth: int, m: Loc, i: nat, r: int, d: int)
    returns (m': Loc, i': nat)
    requires v.Ok() && depth >= 0 && Searching(v, l, s, offset0, here, depth, m, i)
    requires depth == 1 ==> !Matches(m.node.name, s)
    requires Stepped(v, here, Next(m, true, depth), r, d)
    ensures Searching(v, l, s, offset0, r, d, m', i')
  {
    hide Ser, Flatten, Named, Wf, Abs, NodeCheck, Whole, TagAt, Matches, View.NodeAt, View.EndAt;
    m', i' := m, i;
    var st := Next(m, true, depth);
    if depth == 0 {
      if l.node.kids != [] { i' := 0; m' := Child(l, 0); NodeAtCheck(v, r, m'); }
    } else {
      NextFrom(m, depth - 1, Child(l, i), 1);
      assert !Matches(l.node.kids[i].name, s);
      assert FindKid(l.node.kids, s, i) == FindKid(l.node.kids, s, i + 1);
      if Inner(st, Child(l, i), 1) && st.depth > 1 {
        m' := st.l;
        NodeAtCheck(v, r, m');
        UpUp(m', d - 1, 0);
      } else {
        LeaveChild(l, i);
        i' := i + 1;
        if i' < |l.node.kids| { m' := Child(l, i'); NodeAtCheck(v, r, m'); }
      }
    }
  }
}
