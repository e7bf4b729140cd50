/** fdt_ro.c: paths. */
module FdtRoPath {
  import opened Bytes
  import opened Strings
  import opened CString
  import opened Trees
  import opened Tokens
  import opened Lexer
  import opened Walk
  import opened Preorder
  import opened Views
  import opened Fdt
  import opened FdtRo
  import opened FdtRoTree

  /** What `fdt_get_path` prints before it takes the last slash away: every name on the way down, each with a slash. */
  function Full(l: Loc): bytes
    decreases l.ctx
  {
    (if l.ctx.Top? then [] else Full(Parent(l))) + l.node.name + [SLASH]
  }

  /** The path of a node. */
  function Printed(l: Loc): bytes {
    if |Full(l)| > 1 then Full(l)[..|Full(l)| - 1] else Full(l)
  }

  /** The first `d` components. */
  function FullTo(m: Loc, d: nat): bytes
    requires d <= Depth(m.ctx) + 1
  {
    if d == 0 then [] else Full(Anc(m, d - 1))
  }

  lemma FullNext(m: Loc, d: nat)
    requires d <= Depth(m.ctx)
    ensures FullTo(m, d + 1) == FullTo(m, d) + Anc(m, d).node.name + [SLASH]
  {
    hide Up;
    UpUp(m, Depth(m.ctx) - d, 0);
    if d > 0 {
      UpUp(m, Depth(m.ctx) - d, 1);
      assert Up(Anc(m, d), 1) == Parent(Anc(m, d)) by { UpOne(Anc(m, d)); }
    }
  }

  lemma UpOne(m: Loc)
    requires m.ctx.In?
    ensures Up(m, 1) == Parent(m)
  {
    assert Up(Parent(m), 0) == Parent(m);
  }

  lemma {:induction false} FullGrows(m: Loc, d: nat)
    requires d <= Depth(m.ctx) + 1
    ensures |FullTo(m, d)| <= |Full(m)| && FullTo(m, Depth(m.ctx) + 1) == Full(m)
    decreases Depth(m.ctx) + 1 - d
  {
    AncSelf(m);
    if d <= Depth(m.ctx) {
      FullNext(m, d);
      FullGrows(m, d + 1);
    }
  }

  lemma FullSame(m: Loc, m': Loc, d: nat)
    requires d <= Depth(m.ctx) + 1 && d <= Depth(m'.ctx) + 1
    requires d > 0 ==> Anc(m, d - 1) == Anc(m', d - 1)
    ensures FullTo(m, d) == FullTo(m', d)
  {
  }

  /** Node names hold no slash. */
  ghost predicate NoSlash(v: View) {
    forall m: Loc :: Whole(m) == v.tree ==> SLASH !in m.node.name
  }

  /** The part of the path that is in the buffer: `pdepth` components of the path of `m`. */
  predicate Built(buf: bytes, p: int, pdepth: int, m: Loc) {
    && 0 <= pdepth <= Depth(m.ctx) + 1
    && p == |FullTo(m, pdepth)| <= |buf| && buf[..p] == FullTo(m, pdepth)
  }

  /** The first component that is missing did not fit. */
  predicate Stuck(size: int, pdepth: int, m: Loc, depth: int) {
    0 <= pdepth < depth <= Depth(m.ctx) + 1 ==> |FullTo(m, pdepth + 1)| > size
  }

  /** Going back over the last component, up to the slash before it. Without one the code reads in front of the
      buffer. */
  method PopName(buf: array<byte>, p0: nat) returns (inside: bool, p: int)
    requires p0 <= buf.Length
    ensures inside <==> exists k :: 0 <= k < p0 - 1 && buf[k] == SLASH
    ensures inside ==> 0 < p < p0 && buf[p - 1] == SLASH && forall k :: p <= k < p0 - 1 ==> buf[k] != SLASH
  {
    p := p0 - 1;
    while true
      invariant p < p0 && (p >= 0 || p == p0 - 1) && forall k :: 0 <= p <= k < p0 - 1 ==> buf[k] != SLASH
      decreases p
    {
      if p <= 0 { return false, p; }
      if buf[p - 1] == SLASH { return true, p; }
      p := p - 1;
    }
  }

  lemma Popped(buf: bytes, p: nat, pdepth: nat, m: Loc)
    requires Built(buf, p, pdepth, m) && pdepth > 1 && SLASH !in Anc(m, pdepth - 1).node.name
    ensures var q := |FullTo(m, pdepth - 1)|;
      && 0 < q < p && buf[q - 1] == SLASH && (forall k :: q <= k < p - 1 ==> buf[k] != SLASH)
      && Built(buf, q, pdepth - 1, m)
  {
    hide Full, Anc;
    FullNext(m, pdepth - 1);
    FullNext(m, pdepth - 2);
    var a, n := FullTo(m, pdepth - 1), Anc(m, pdepth - 1).node.name;
    var q := |a|;
    var w := buf[..p];
    assert w == a + n + [SLASH];
    assert a[q - 1] == SLASH;
    assert w[q - 1] == a[q - 1];
    forall k | q <= k < p - 1 ensures buf[k] != SLASH {
      assert w[k] == n[k - q];
      assert n[k - q] in n;
    }
    assert buf[..q] == w[..q] == a;
  }

  lemma AncWhole(m: Loc, d: nat)
    requires d <= Depth(m.ctx)
    ensures Whole(Anc(m, d)) == Whole(m)
  {
    UpWhole(m, Depth(m.ctx) - d);
  }

  /** The slash that a component starts behind is the last one in front of its own. */
  lemma PoppedTo(buf: bytes, p: nat, q: int, pdepth: nat, m: Loc)
    requires Built(buf, p, pdepth, m) && pdepth > 1 && SLASH !in Anc(m, pdepth - 1).node.name
    requires 0 < q < p && buf[q - 1] == SLASH && forall k :: q <= k < p - 1 ==> buf[k] != SLASH
    ensures Built(buf, q, pdepth - 1, m)
  {
    hide Built, FullTo, Anc;
    BuiltDepth(buf, p, pdepth, m);
    Popped(buf, p, pdepth, m);
    BuiltSize(buf, p, pdepth, m);
    LastSlash(buf, p, q, |FullTo(m, pdepth - 1)|);
  }

  lemma LastSlash(buf: bytes, p: nat, q: int, r: int)
    requires p <= |buf| && 0 < q < p && buf[q - 1] == SLASH && forall k :: q <= k < p - 1 ==> buf[k] != SLASH
    requires 0 < r < p && buf[r - 1] == SLASH && forall k :: r <= k < p - 1 ==> buf[k] != SLASH
    ensures q == r
  {
  }

  /** In front of the first component there is no slash. */
  lemma NoneBefore(buf: bytes, p: nat, pdepth: nat, m: Loc)
    requires Built(buf, p, pdepth, m) && pdepth <= 1 && SLASH !in Anc(m, 0).node.name
    ensures forall k :: 0 <= k < p - 1 ==> buf[k] != SLASH
  {
    hide Full, Anc;
    if pdepth == 1 {
      FullNext(m, 0);
      var n := Anc(m, 0).node.name;
      assert FullTo(m, 1) == n + [SLASH];
      forall k | 0 <= k < p - 1 ensures buf[k] != SLASH {
        assert buf[..p][k] == n[k];
        assert n[k] in n;
      }
    }
  }

  /** `while (pdepth > depth)`: back to the components shared with the next node. Past the end of the whole tree,
      where the depth is negative, the loop leaves the buffer. */
  method PopTo(buf: array<byte>, p0: nat, pdepth0: nat, depth: int, ghost m: Loc, ghost v: View)
    returns (inside: bool, p: nat, pdepth: nat)
    requires Built(buf[..], p0, pdepth0, m) && Whole(m) == v.tree && NoSlash(v) && (depth == 0 ==> pdepth0 == 0)
    ensures inside <==> depth >= 0
    ensures inside ==> Built(buf[..], p, pdepth, m) && pdepth == Min(pdepth0, depth)
  {
    hide FullTo, Built, Anc, Full, Whole;
    p, pdepth := p0, pdepth0;
    while pdepth > depth
      invariant Built(buf[..], p, pdepth, m) && Min(pdepth0, depth) <= pdepth <= pdepth0
    {
      BuiltDepth(buf[..], p, pdepth, m);
      BuiltSize(buf[..], p, pdepth, m);
      var q;
      inside, q := PopName(buf, p);
      if pdepth <= 1 {
        AncWhole(m, 0);
        NoneBefore(buf[..], p, pdepth, m);
      } else {
        AncWhole(m, pdepth - 1);
        Popped(buf[..], p, pdepth, m);
      }
      if !inside { return; }
      PoppedTo(buf[..], p, q, pdepth, m);
      p := q;
      pdepth := pdepth - 1;
    }
    inside := true;
  }

  lemma BuiltDepth(buf: bytes, p: int, pdepth: int, m: Loc)
    requires Built(buf, p, pdepth, m)
    ensures 0 <= pdepth <= Depth(m.ctx) + 1
  {
  }

  lemma BuiltSize(buf: bytes, p: int, pdepth: int, m: Loc)
    requires Built(buf, p, pdepth, m)
    ensures 0 <= p <= |buf|
  {
  }

  /** The shared components are components of the next node too. */
  lemma BuiltShared(buf: bytes, p: int, pdepth: int, m: Loc, m': Loc, d: nat)
    requires Built(buf, p, pdepth, m) && pdepth <= d <= Depth(m'.ctx) && d <= Depth(m.ctx) + 1
    requires forall e :: 0 <= e < d ==> Anc(m', e) == Anc(m, e)
    ensures Built(buf, p, pdepth, m')
  {
    hide Anc, Full;
  }

  /** A name added to the path. */
  lemma Pushed(buf: bytes, buf': bytes, p: nat, d: nat, m: Loc)
    requires Built(buf, p, d, m) && d == Depth(m.ctx) && p + |m.node.name| + 1 <= |buf|
    requires buf' == Written(Written(buf, p, m.node.name), p + |m.node.name|, [SLASH])
    ensures Built(buf', p + |m.node.name| + 1, d + 1, m)
  {
    hide Full, Anc;
    FullNext(m, d);
    AncSelf(m);
    var n := m.node.name;
    assert buf' == buf[..p] + n + [SLASH] + buf[p + |n| + 1..];
    assert buf'[..p + |n| + 1] == buf[..p] + n + [SLASH];
  }

  /** `fdt_get_name`: where the name is in the buffer, and its length. */
  method GetName(fdt: Blob, nodeoffset: int, ghost l: Loc) returns (p: int, len: int)
    requires fdt.Readable() && nodeoffset < TWO31 && fdt.v.Handle(nodeoffset, l)
    ensures HeaderError(fdt.h) != 0 ==> p < 0 && len == HeaderError(fdt.h)
    ensures HeaderError(fdt.h) == 0 && NodeCheck(fdt.v.s, nodeoffset) < 0 ==> p < 0 && len == -ERR_BADOFFSET
    ensures HeaderError(fdt.h) == 0 && NodeCheck(fdt.v.s, nodeoffset) >= 0 ==>
      0 <= p && len == |l.node.name| && p + len < fdt.buf.Length && fdt.buf[p..p + len] == l.node.name
  {
    hide View.Ok, View.NodeAt, NodeCheck, Region, Tab, NulAt;
    len := HeaderError(fdt.h);
    if len != 0 { return -1, len; }
    NodeCheckSign(fdt.v.s, nodeoffset);
    len := CheckNodeOffset(fdt, nodeoffset);
    if len < 0 { return -1, len; }
    p := fdt.h.offStruct + nodeoffset + 4;
    NamePlace(fdt.h, fdt.buf[..], fdt.v, nodeoffset, l);
    len := StrlenIso(fdt.buf[..], p);
    assert fdt.buf[p..p + len] == fdt.buf[..][p..p + len];
  }

  /** Where the name of a node stands in memory. */
  lemma NamePlace(h: Header, m: bytes, v: View, nodeoffset: int, l: Loc)
    requires Legible(h, m, v) && v.NodeAt(nodeoffset, l)
    ensures var p, n := h.offStruct + nodeoffset + 4, |l.node.name|;
      0 <= p && p + n < |m| && NulAt(m, p) == p + n && m[p..p + n] == l.node.name
  {
    hide View.Ok, View.NodeAt, NodeCheck, Legible, NulAt, Occurs;
    var o, n := nodeoffset + 4, |l.node.name|;
    LegibleOk(h, m, v);
    NodeName(v, nodeoffset, l);
    NameBytesAt(v.s, o, l.node.name);
    InMemory(h, m, v, o, o + n + 1);
    NameLength(m, h.offStruct + o, l.node.name);
  }

  lemma LegibleOk(h: Header, m: bytes, v: View)
    requires Legible(h, m, v)
    ensures v.Ok()
  {
    hide View.Ok, Region, Tab;
  }

  lemma NameBytesAt(s: bytes, o: nat, name: bytes)
    requires Occurs(s, o, name)
    ensures o + |name| + 1 <= |s| && s[o..o + |name| + 1] == name + [NUL]
  {
  }

  lemma NameLength(m: bytes, p: nat, name: bytes)
    requires p + |name| + 1 <= |m| && m[p..p + |name| + 1] == name + [NUL] && NUL !in name
    ensures NulAt(m, p) == p + |name| && m[p..p + |name|] == name
  {
    OccursIsStrAt(m, p, name);
  }

  /** The step of the walk that adds a name, when everything above it is there and the name fits. */
  method PushName(fdt: Blob, offset: int, buf: array<byte>, p0: nat, pdepth0: nat, depth: nat, ghost m: Loc)
    returns (p: nat, pdepth: nat)
    requires fdt.Readable() && offset < TWO31 && fdt.v.NodeAt(offset, m) && HeaderError(fdt.h) == 0 && buf != fdt.buf
    requires Built(buf[..], p0, pdepth0, m) && pdepth0 <= depth == Depth(m.ctx) && Stuck(buf.Length, pdepth0, m, depth)
    modifies buf
    ensures Built(buf[..], p, pdepth, m) && Stuck(buf.Length, pdepth, m, depth + 1)
  {
    hide View.Ok, View.NodeAt, NodeCheck, Region, Tab, Full, FullTo, Built, Written, Anc;
    p, pdepth := p0, pdepth0;
    BuiltSize(buf[..], p, pdepth, m);
    BuiltLength(buf[..], p, pdepth, m);
    NodeAtCheck(fdt.v, offset, m);
    if pdepth >= depth {
      FullNext(m, depth);
      AncSelf(m);
      var name, namelen := GetName(fdt, offset, m);
      if p + namelen + 1 <= buf.Length {
        ghost var b := buf[..];
        Memcpy(buf, p, fdt.buf[name..name + namelen]);
        p := p + namelen;
        Memcpy(buf, p, [SLASH]);
        p := p + 1;
        pdepth := pdepth + 1;
        Pushed(b, buf[..], p0, pdepth0, m);
      }
    }
  }

  lemma BuiltLength(buf: bytes, p: int, pdepth: int, m: Loc)
    requires Built(buf, p, pdepth, m)
    ensures 0 <= pdepth <= Depth(m.ctx) + 1 && p == |FullTo(m, pdepth)|
  {
  }

  lemma RootWhole(v: View)
    ensures Whole(Root(v)) == v.tree
  {
  }

  lemma BuiltNone(buf: bytes, m: Loc)
    requires m.ctx.Top?
    ensures Built(buf, 0, 0, m) && Stuck(|buf|, 0, m, 0)
  {
  }

  /** The next node: the components above it are the same. */
  lemma PathStep(prev: Loc, m: Loc, size: int, pdepth: nat, depth: nat)
    requires Next(prev, true, Depth(prev.ctx)) == Visit(m, depth) && Stuck(size, pdepth, prev, Depth(prev.ctx) + 1)
    ensures 0 < depth == Depth(m.ctx) <= Depth(prev.ctx) + 1 && Stuck(size, pdepth, m, depth)
    ensures forall e :: 0 <= e < depth ==> Anc(m, e) == Anc(prev, e)
  {
    hide Next, Anc, FullTo, Full;
    NextAncestors(prev, 0);
    forall e | 0 <= e < depth ensures Anc(m, e) == Anc(prev, e) { NextAncestors(prev, e); }
    if pdepth < depth { FullSame(prev, m, pdepth + 1); }
  }

  /** At the node itself: the whole path, or not enough room for it. */
  lemma PathDone(buf: bytes, p: nat, pdepth: nat, l: Loc)
    requires Built(buf, p, pdepth, l) && Stuck(|buf|, pdepth, l, Depth(l.ctx) + 1) && |buf| >= 2
    ensures pdepth <= Depth(l.ctx) ==> |Full(l)| > |buf|
    ensures pdepth > Depth(l.ctx) ==> |Full(l)| <= |buf| && p > 0 && buf[..p] == Full(l)
    ensures pdepth > Depth(l.ctx) ==>
      var e := if p > 1 then p - 1 else p; e < |buf| && e == |Printed(l)| && buf[..e] == Printed(l)
  {
    hide Anc, FullTo;
    FullGrows(l, if pdepth <= Depth(l.ctx) then pdepth + 1 else 0);
    BuiltLength(buf, p, pdepth, l);
    if pdepth > Depth(l.ctx) {
      assert buf[..p] == Full(l) by { BuiltBytes(buf, p, pdepth, l); }
      if p > 1 { assert buf[..p - 1] == buf[..p][..p - 1]; }
    }
  }

  lemma BuiltBytes(buf: bytes, p: int, pdepth: int, m: Loc)
    requires Built(buf, p, pdepth, m)
    ensures 0 <= p <= |buf| && 0 <= pdepth <= Depth(m.ctx) + 1 && buf[..p] == FullTo(m, pdepth)
  {
  }

  lemma NulAfter(buf: bytes, e: nat)
    requires e < |buf|
    ensures Written(buf, e, [NUL])[..e + 1] == buf[..e] + [NUL]
  {
  }

  /** An offset at or behind the end of the root. */
  ghost predicate Behind(v: View, offset: int) {
    exists e :: v.EndAt(e, Root(v)) && e <= offset
  }

  /** Where the walk of `fdt_get_path` goes too far: exactly behind the tree. */
  lemma WalkTooFar(v: View, nodeoffset: int, l: Loc, offset: int, depth: int, m: Loc)
    requires v.Ok() && Walking(v, nodeoffset, l, offset, depth, m) && offset >= 0
    ensures depth < 0 && offset <= nodeoffset ==> Behind(v, nodeoffset) && NodeCheck(v.s, nodeoffset) < 0
    ensures offset > nodeoffset ==> !Behind(v, nodeoffset)
  {
    hide View.Ok, View.NodeAt, View.EndAt, NodeCheck;
    if e :| v.EndAt(e, Root(v)) && e <= nodeoffset {
      if depth < 0 { EndOnce(v, e, offset, Root(v)); } else { EndBehind(v, offset, m, e); }
    }
  }

  /** A blob of one node without a name: an opening tag, its end, and FDT_END. */
  function Single(): View {
    var toks := [TBegin([], [NUL, NUL, NUL]), TEnd, TFin];
    View(Ser(toks), toks, [], Node([], [], []))
  }

  /** There the offset of FDT_END, 12, is no node and lies behind the tree, so that `fdt_get_path` goes wrong. */
  lemma TooFarAtTwelve()
    ensures Single().Ok() && NodeCheck(Single().s, 12) < 0 && Behind(Single(), 12)
  {
    hide Ser, Abs, Flatten, View.Ok, NodeCheck, Off;
    var v := Single();
    SingleOk();
    SingleSize();
    SingleEvents();
    TokenCheck(v, 2);
    assert v.Closes(2, Root(v));
    assert v.EndAt(12, Root(v));
  }

  lemma SingleOk()
    ensures Single().Ok()
  {
    hide Ser, Abs, Flatten, Off;
    SingleSize();
    SingleEvents();
    assert Aligned(4);
  }

  lemma SingleSize()
    ensures |Single().s| == 16 && Off(Single().toks, 2) == 12
  {
    hide Word, Ser, TokBytes;
    var ts := Single().toks;
    OffZero(ts);
    OffStep(ts, 0);
    OffStep(ts, 1);
    OffStep(ts, 2);
    assert ts[..3] == ts;
  }

  lemma SingleEvents()
    ensures Abs(Single().toks, []) == [Open([]), Close, Fin] == Flatten(Single().tree) + [Fin]
    ensures Abs(Single().toks[2..], []) == [Fin]
  {
    hide Ser;
    var ts := Single().toks;
    AbsOne(ts[2], []);
    AbsOne(ts[1], []);
    AbsOne(ts[0], []);
    AbsSplit(ts, 2, []);
    AbsSplit(ts[..2], 1, []);
    assert ts[2..] == [ts[2]] && ts[..2][1..] == [ts[1]] && ts[..2][..1] == [ts[0]];
  }

  /** At a node the walk has not gone too far. */
  lemma NodeInside(v: View, nodeoffset: int, l: Loc)
    requires v.Ok() && v.NodeAt(nodeoffset, l)
    ensures !Behind(v, nodeoffset)
  {
    hide View.Ok, View.NodeAt, View.EndAt;
    if e :| v.EndAt(e, Root(v)) && e <= nodeoffset { EndBehind(v, nodeoffset, l, e); }
  }

  /** `fdt_get_path`. It reads in front of its buffer exactly for an offset behind the tree; nothing is said about
      what happens then. Otherwise it succeeds exactly when the path and its NUL fit. */
  method GetPath(fdt: Blob, nodeoffset: int, buf: array<byte>, buflen: nat, ghost l: Loc) returns (inside: bool, r: int)
    requires fdt.Readable() && nodeoffset < TWO31 && fdt.v.Handle(nodeoffset, l) && NoSlash(fdt.v)
    requires buf != fdt.buf && buf.Length == buflen
    modifies buf
    ensures inside <==> HeaderError(fdt.h) != 0 || buflen < 2 || !Behind(fdt.v, nodeoffset)
    ensures NodeCheck(fdt.v.s, nodeoffset) >= 0 ==> inside
    ensures HeaderError(fdt.h) != 0 ==> r == HeaderError(fdt.h)
    ensures HeaderError(fdt.h) == 0 && buflen < 2 ==> r == -ERR_NOSPACE
    ensures HeaderError(fdt.h) == 0 && buflen >= 2 && NodeCheck(fdt.v.s, nodeoffset) < 0 && inside ==>
      r == -ERR_BADOFFSET
    ensures HeaderError(fdt.h) == 0 && NodeCheck(fdt.v.s, nodeoffset) >= 0 ==>
      if buflen >= 2 && buflen >= |Full(l)|
      then r == 0 && |Printed(l)| < buflen && buf[..|Printed(l)| + 1] == Printed(l) + [NUL]
      else r == -ERR_NOSPACE
  {
    hide View.Ok, View.NodeAt, View.EndAt, NodeCheck, Next, From, Whole, Region, Tab, Stepped, Anc, Full, FullTo,
      Built, Written, NoSlash, Printed, Behind;
    ghost var v := fdt.v;
    inside := true;
    if NodeCheck(v.s, nodeoffset) >= 0 { NodeInside(v, nodeoffset, l); }
    var err := HeaderError(fdt.h);
    if err != 0 { return true, err; }
    if buflen < 2 { return true, -ERR_NOSPACE; }
    var pdepth, p := 0, 0;
    var offset, depth := 0, 0;
    ghost var m, prev := Root(v), Root(v);
    WalkStart(v, nodeoffset, l);
    assert Built(buf[..], 0, 0, m) && Stuck(buflen, 0, m, 0) && Whole(m) == v.tree by {
      BuiltNone(buf[..], m);
      RootWhole(v);
    }
    while offset >= 0 && offset <= nodeoffset
      invariant inside && Walking(v, nodeoffset, l, offset, depth, m) && offset >= 0
      invariant Built(buf[..], p, pdepth, prev) && Whole(prev) == v.tree && (depth == 0 ==> pdepth == 0)
      invariant depth >= 0 ==>
        && Whole(m) == v.tree && depth <= Depth(prev.ctx) + 1
        && (forall e :: 0 <= e < depth ==> Anc(m, e) == Anc(prev, e)) && Stuck(buflen, pdepth, m, depth)
      decreases nodeoffset - offset
    {
      BuiltLength(buf[..], p, pdepth, prev);
      WalkTooFar(v, nodeoffset, l, offset, depth, m);
      inside, p, pdepth := PopTo(buf, p, pdepth, depth, prev, v);
      if !inside { return false, 0; }
      BuiltShared(buf[..], p, pdepth, prev, m, depth);
      p, pdepth := PushName(fdt, offset, buf, p, pdepth, depth, m);
      NodeAtCheck(v, offset, m);
      if offset == nodeoffset {
        OffsetRank(v, offset, m, nodeoffset, l);
        BuiltSize(buf[..], p, pdepth, l);
        PathDone(buf[..], p, pdepth, l);
        if pdepth < depth + 1 { return true, -ERR_NOSPACE; }
        if p > 1 { p := p - 1; }
        NulAfter(buf[..], p);
        Memcpy(buf, p, [NUL]);
        return true, 0;
      }
      ghost var here, d := offset, depth;
      prev := m;
      offset, depth := NextNode(fdt, offset, true, depth, m);
      m := WalkStep(v, nodeoffset, l, here, d, m, offset, depth);
      if depth >= 0 {
        PathStep(prev, m, buflen, pdepth, depth);
        WholeAt(v, offset, m);
      }
    }
    WalkTooFar(v, nodeoffset, l, offset, depth, m);
    return true, Missed(offset);
  }

  datatype Resolved = To(l: Loc) | Missing

  /** The first slash, or the length. */
  function SlashAt(path: bytes): (q: nat)
    ensures q <= |path| && (q < |path| ==> path[q] == SLASH) && (path != [] && path[0] != SLASH ==> q > 0)
  {
    if path == [] || path[0] == SLASH then 0 else 1 + SlashAt(path[1..])
  }

  lemma {:induction false} SlashAtIs(n: bytes, b: bytes)
    requires SLASH !in n && (b == [] || b[0] == SLASH)
    ensures SlashAt(n + b) == |n|
  {
    if n == [] {
      assert n + b == b;
    } else {
      assert (n + b)[1..] == n[1..] + b && (n + b)[0] == n[0];
      assert n[0] in n;
      SlashAtIs(n[1..], b);
    }
  }

  /** The node a path leads to from another node: each component takes the first child that answers to it. */
  function Resolve(l: Loc, path: bytes): Resolved
    decreases |path|
  {
    if path == [] then To(l)
    else if path[0] == SLASH then Resolve(l, path[1..])
    else
      var q := SlashAt(path);
      var i := FindKid(l.node.kids, path[..q], 0);
      if i == |l.node.kids| then Missing else Resolve(Child(l, i), path[q..])
  }

  /** Resolving in two parts. */
  lemma {:induction false} ResolveAppend(l: Loc, a: bytes, b: bytes)
    requires b == [] || b[0] == SLASH
    ensures Resolve(l, a + b) == (var m := Resolve(l, a); if m.To? then Resolve(m.l, b) else Missing)
    decreases |a|
  {
    if a == [] {
      assert a + b == b;
    } else {
      assert (a + b)[0] == a[0];
      if a[0] == SLASH {
        assert (a + b)[1..] == a[1..] + b;
        ResolveAppend(l, a[1..], b);
      } else {
        var q := SlashAt(a);
        SlashInPart(a, b);
        assert (a + b)[..q] == a[..q] && (a + b)[q..] == a[q..] + b;
        var i := FindKid(l.node.kids, a[..q], 0);
        if i < |l.node.kids| { ResolveAppend(Child(l, i), a[q..], b); }
      }
    }
  }

  lemma {:induction false} SlashInPart(a: bytes, b: bytes)
    requires b == [] || b[0] == SLASH
    ensures SlashAt(a + b) == SlashAt(a)
  {
    if a == [] {
      assert a + b == b;
    } else if a[0] != SLASH {
      assert (a + b)[1..] == a[1..] + b && (a + b)[0] == a[0];
      SlashInPart(a[1..], b);
    }
  }

  /** `while (*p == '/')`: the start of the next component, or the end of the path. */
  method SkipSlashes(path: bytes, p0: nat, ghost l: Loc) returns (p: nat)
    requires p0 < |path|
    ensures p0 <= p <= |path| && (p < |path| ==> path[p] != SLASH) && Resolve(l, path[p..]) == Resolve(l, path[p0..])
  {
    p := p0;
    while path[p] == SLASH
      invariant p0 <= p < |path| && Resolve(l, path[p..]) == Resolve(l, path[p0..])
      decreases |path| - p
    {
      assert path[p..][1..] == path[p + 1..];
      p := p + 1;
      if p == |path| { return; }
    }
  }

  /** `memchr` for the end of a component. */
  method ComponentEnd(path: bytes, p: nat, ghost l: Loc) returns (q: nat)
    requires p < |path| && path[p] != SLASH
    ensures p < q <= |path|
    ensures Resolve(l, path[p..]) ==
      var i := FindKid(l.node.kids, path[p..q], 0);
      if i == |l.node.kids| then Missing else Resolve(Child(l, i), path[q..])
  {
    hide FindKid;
    var found, at := Memchr(path, p, SLASH, |path| - p);
    q := if found then at else |path|;
    ghost var n, b := path[p..q], path[q..];
    assert path[p..] == n + b;
    assert SLASH !in n;
    SlashAtIs(n, b);
    assert path[p..][..q - p] == n && path[p..][q - p..] == b;
  }

  /** `fdt_path_offset_namelen`, on an absolute path. */
  method PathOffset(fdt: Blob, path: bytes) returns (r: int)
    requires fdt.Readable() && path != [] && path[0] == SLASH && NUL !in path && |path| < TWO31
    ensures HeaderError(fdt.h) != 0 ==> r == HeaderError(fdt.h)
    ensures HeaderError(fdt.h) == 0 ==>
      match Resolve(Root(fdt.v), path)
      case To(m) => fdt.v.NodeAt(r, m) && 0 <= r < TWO31
      case Missing => r == -ERR_NOTFOUND
  {
    hide View.Ok, View.NodeAt, NodeCheck, Region, Tab, Whole, FindKid, Resolve, SlashAt;
    var err := HeaderError(fdt.h);
    if err != 0 { return err; }
    var p, offset := 0, 0;
    ghost var l := Root(fdt.v);
    RootOpens(fdt.v);
    assert path[0..] == path;
    while p < |path|
      invariant 0 <= p <= |path| && fdt.v.NodeAt(offset, l) && 0 <= offset < TWO31
      invariant Resolve(l, path[p..]) == Resolve(Root(fdt.v), path)
    {
      p := SkipSlashes(path, p, l);
      if p == |path| { break; }
      var q := ComponentEnd(path, p, l);
      NodeAtCheck(fdt.v, offset, l);
      offset := SubnodeOffsetNamelen(fdt, offset, path[p..q], l);
      if offset < 0 { return offset; }
      l := Child(l, FindKid(l.node.kids, path[p..q], 0));
      p := q;
    }
    assert path[p..] == [];
    ResolveNothing(l);
    return offset;
  }

  lemma ResolveNothing(l: Loc)
    ensures Resolve(l, []) == To(l)
  {
  }

  /** No earlier sibling, here or further up, answers to a component of the path. */
  predicate Unshadowed(l: Loc)
    decreases l.ctx
  {
    l.ctx.Top? || (Unshadowed(Parent(l)) && FindKid(Parent(l).node.kids, l.node.name, 0) == |l.ctx.left|)
  }

  /** Names as they may stand in a path; the root has none. */
  predicate Nameable(l: Loc)
    decreases l.ctx
  {
    && SLASH !in l.node.name
    && if l.ctx.Top? then l.node.name == [] else l.node.name != [] && Nameable(Parent(l))
  }

  /** The path without its last slash; nothing for the root. */
  function PathOf(l: Loc): bytes
    decreases l.ctx
  {
    if l.ctx.Top? then [] else PathOf(Parent(l)) + ([SLASH] + l.node.name)
  }

  lemma {:induction false} PrintedPath(l: Loc)
    requires Nameable(l)
    ensures Full(l) == PathOf(l) + [SLASH]
    ensures Printed(l) == if l.ctx.Top? then [SLASH] else PathOf(l)
    decreases l.ctx
  {
    hide Full, PathOf, Nameable;
    FullParts(l);
    if l.ctx.In? {
      PrintedPath(Parent(l));
      SlashLast(PathOf(Parent(l)), l.node.name);
    }
    DropLast(PathOf(l), SLASH);
  }

  lemma FullParts(l: Loc)
    ensures l.ctx.Top? && Nameable(l) ==> Full(l) == [SLASH] && PathOf(l) == []
    ensures l.ctx.In? ==> Full(l) == Full(Parent(l)) + l.node.name + [SLASH]
    ensures l.ctx.In? ==> PathOf(l) == PathOf(Parent(l)) + ([SLASH] + l.node.name) && |PathOf(l)| > 0
    ensures l.ctx.In? && Nameable(l) ==> Nameable(Parent(l))
  {
    if l.ctx.Top? && l.node.name == [] { assert [] + l.node.name + [SLASH] == [SLASH]; }
  }

  lemma SlashLast(a: bytes, n: bytes)
    ensures (a + [SLASH]) + n + [SLASH] == (a + ([SLASH] + n)) + [SLASH]
  {
  }

  lemma DropLast(a: bytes, x: byte)
    ensures (a + [x])[..|a + [x]| - 1] == a
  {
  }

  lemma ChildOfParent(l: Loc)
    requires l.ctx.In?
    ensures Child(Parent(l), |l.ctx.left|) == l
  {
    var ks := Parent(l).node.kids;
    assert ks[..|l.ctx.left|] == l.ctx.left && ks[|l.ctx.left| + 1..] == l.ctx.right;
  }

  /** One component. */
  lemma ResolveStep(m: Loc, n: bytes)
    requires n != [] && SLASH !in n
    ensures Resolve(m, [SLASH] + n) ==
      var i := FindKid(m.node.kids, n, 0); if i == |m.node.kids| then Missing else To(Child(m, i))
  {
    assert ([SLASH] + n)[1..] == n && n + [] == n;
    assert Resolve(m, [SLASH] + n) == Resolve(m, n);
    assert n[0] in n;
    SlashAtIs(n, []);
    assert n[..|n|] == n && n[|n|..] == [];
    var i := FindKid(m.node.kids, n, 0);
    if i < |m.node.kids| { ResolveNothing(Child(m, i)); }
  }

  lemma {:induction false} PathResolves(l: Loc)
    requires Nameable(l)
    ensures Resolve(Loc(Top, Whole(l)), PathOf(l)) == To(l) <==> Unshadowed(l)
    decreases l.ctx
  {
    if l.ctx.In? {
      hide FindKid, Resolve, Whole;
      var r, p := Loc(Top, Whole(l)), Parent(l);
      PathResolves(p);
      assert Whole(p) == Whole(l) by { ParentWhole(l); }
      ResolveAppend(r, PathOf(p), [SLASH] + l.node.name);
      var m := Resolve(r, PathOf(p));
      if m.To? {
        ResolveStep(m.l, l.node.name);
        var i := FindKid(m.l.node.kids, l.node.name, 0);
        ChildOfParent(l);
        if i < |m.l.node.kids| { ChildParent(m.l, i); }
        SameChild(p, i, |l.ctx.left|);
      }
    }
  }

  lemma ParentWhole(l: Loc)
    requires l.ctx.In?
    ensures Whole(Parent(l)) == Whole(l)
  {
  }

  lemma SameChild(p: Loc, i: nat, j: nat)
    requires j < |p.node.kids|
    ensures i < |p.node.kids| && Child(p, i) == Child(p, j) ==> i == j
  {
    if i < |p.node.kids| && Child(p, i) == Child(p, j) {
      assert |Child(p, i).ctx.left| == i && |Child(p, j).ctx.left| == j;
    }
  }

  /** The path that is printed for a node leads back to that node exactly when no component is shadowed by an earlier
      sibling under the unit-address rule. */
  lemma PathRoundTrip(l: Loc)
    requires Nameable(l)
    ensures Resolve(Loc(Top, Whole(l)), Printed(l)) == To(l) <==> Unshadowed(l)
  {
    hide Whole, PathOf, Full;
    PrintedPath(l);
    PathResolves(l);
    if l.ctx.Top? {
      assert [SLASH][1..] == [];
      assert Whole(l) == l.node by { TopWhole(l); }
    }
  }

  lemma TopWhole(l: Loc)
    requires l.ctx.Top?
    ensures Whole(l) == l.node && l == Loc(Top, Whole(l))
  {
  }

  /** No name on the way down to a node holds a NUL. */
  lemma {:induction false} CleanPath(v: View, off: int, l: Loc)
    requires v.Ok() && v.NodeAt(off, l)
    ensures NUL !in Full(l)
    decreases l.ctx
  {
    hide View.Ok, View.NodeAt, Whole;
    assert NUL !in l.node.name by { CleanName(v, off, l); }
    if l.ctx.In? {
      ParentWhole(l);
      WholeAt(v, off, l);
      var p := NodeHasOffset(v, Parent(l));
      CleanPath(v, p, Parent(l));
    }
  }

  lemma CleanName(v: View, off: int, l: Loc)
    requires v.Ok() && v.NodeAt(off, l)
    ensures NUL !in l.node.name
  {
    hide Ser, Off, Abs, Flatten, Named, Whole, From;
    var k := OpenToken(v, off, l);
    OpensInside(v, k, l);
    WfAt(v.toks, k);
  }

  lemma PrintedParts(l: Loc)
    requires Nameable(l) && NUL !in Full(l)
    ensures 0 < |Printed(l)| <= |Full(l)| && Printed(l)[0] == SLASH && NUL !in Printed(l)
    ensures |Full(l)| > 1 ==> |Full(l)| == |Printed(l)| + 1
    ensures |Full(l)| <= 1 ==> |Printed(l)| == |Full(l)| == 1
  {
    hide Full;
    PrintedPath(l);
    assert forall k :: 0 <= k < |Printed(l)| ==> Printed(l)[k] == Full(l)[k];
    if l.ctx.In? { PathFront(l); }
  }

  lemma {:induction false} PathFront(l: Loc)
    requires l.ctx.In?
    ensures |PathOf(l)| > 0 && PathOf(l)[0] == SLASH
    decreases l.ctx
  {
    if Parent(l).ctx.In? { PathFront(Parent(l)); }
  }

  /** `fdt_get_path`, then `fdt_path_offset` on what it printed: back at the node exactly when no component of the
      path is shadowed by an earlier sibling. */
  method PathAndBack(fdt: Blob, nodeoffset: int, buf: array<byte>, ghost l: Loc) returns (err: int, r: int)
    requires fdt.Readable() && HeaderError(fdt.h) == 0 && NoSlash(fdt.v) && buf != fdt.buf && buf.Length < TWO31
    requires 0 <= nodeoffset < TWO31 && fdt.v.NodeAt(nodeoffset, l) && Nameable(l)
    modifies buf
    ensures err == if buf.Length >= 2 && buf.Length >= |Full(l)| then 0 else -ERR_NOSPACE
    ensures err == 0 ==> (r == nodeoffset <==> Unshadowed(l))
  {
    hide View.Ok, View.NodeAt, NodeCheck, Legible, NoSlash, Behind, Full, Printed, Nameable, Unshadowed, NulAt,
      Resolve, Whole;
    ReadableOk(fdt);
    NodeAtCheck(fdt.v, nodeoffset, l);
    CleanPath(fdt.v, nodeoffset, l);
    PrintedParts(l);
    r := -1;
    var inside;
    inside, err := GetPath(fdt, nodeoffset, buf, buf.Length, l);
    if err != 0 { return; }
    ghost var n := |Printed(l)|;
    assert buf[..][0..n + 1] == buf[..n + 1];
    NameLength(buf[..], 0, Printed(l));
    var len := StrlenIso(buf[..], 0);
    assert buf[..len] == (Printed(l) + [NUL])[..len] == Printed(l);
    r := PathOffset(fdt, buf[..len]);
    WholeAt(fdt.v, nodeoffset, l);
    PathRoundTrip(l);
    var to := Resolve(Loc(Top, Whole(l)), Printed(l));
    if to.To? { OffsetRank(fdt.v, r, to.l, nodeoffset, l); }
  }
}
