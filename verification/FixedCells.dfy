/** What the cells that fixups name hold once they are resolved. */
module FixedCells {
  import opened Bytes
  import opened Strings
  import opened CString
  import opened Trees
  import opened Walk
  import opened Lexer
  import opened FdtRo
  import opened FdtRoPath
  import opened FdtRoPhandle
  import opened IndexPaths
  import opened Merge
  import opened References
  import opened Renumber
  import opened Fixups
  import opened Labels
  import opened Symbols
  import opened Targets

  /** The symbol leads to the node `m` of the base. */
  ghost predicate Labelled(base: Tree, symbol: bytes, m: Loc) {
    var s := FindKid(base.kids, SYMBOLS, 0);
    && s < |base.kids| && Get(base.kids[s].props, symbol).Some?
    && Resolve(Loc(Top, base), StrAt(Get(base.kids[s].props, symbol).value, 0)) == To(m)
  }

  lemma LabelIs(base: Tree, symbol: bytes)
    ensures forall m: Loc :: Labelled(base, symbol, m) ==>
      var ph := Phandle(m.node.props);
      LabelPhandle(base, symbol) == if ph == 0 then Bad(-ERR_NOTFOUND) else Good(ph)
    ensures LabelPhandle(base, symbol).Good? ==> exists m: Loc :: Labelled(base, symbol, m)
    ensures LabelPhandle(base, symbol).Bad? ==> LabelPhandle(base, symbol) == Bad(-ERR_NOTFOUND)
  {
    hide Resolve, StrAt, FindKid, Get, Phandle;
    if LabelPhandle(base, symbol).Good? {
      var s := FindKid(base.kids, SYMBOLS, 0);
      var m := Resolve(Loc(Top, base), StrAt(Get(base.kids[s].props, symbol).value, 0)).l;
      assert Labelled(base, symbol, m);
    }
  }

  /** The fixup is about property `name` of the node at `p`. */
  predicate Meets(t: Tree, r: Ref, p: IndexPath, name: bytes) {
    Follow(t, r.path) == Got(p) && r.name == name
  }

  /** The fixup can be resolved: its label leads to a node with a phandle, and the cell is inside its property. */
  ghost predicate Resolvable(base: Tree, t: Tree, r: Ref) {
    && (exists m: Loc :: Labelled(base, r.symbol, m) && Phandle(m.node.props) != 0)
    && Follow(t, r.path).Got? && Has(t, Follow(t, r.path).p)
    && var v := Get(Below(t, Follow(t, r.path).p).props, r.name);
      v.Some? && Off(r) + 4 <= |v.value|
  }

  /** Other properties at one node. */
  lemma {:induction false} PutPropsAt(t: Tree, p: IndexPath, ps: seq<Prop>, q: IndexPath)
    requires Has(t, p) && Has(t, q)
    ensures var u := Put(t, p, Node(Below(t, p).name, ps, Below(t, p).kids));
      Has(u, q) && Below(u, q).props == if q == p then ps else Below(t, q).props
    decreases |p|
  {
    if p != [] && q != [] && q[0] == p[0] {
      PutPropsAt(t.kids[p[0]], p[1..], ps, q[1..]);
      assert q == [q[0]] + q[1..] && p == [p[0]] + p[1..];
    }
  }

  /** One property replaced. */
  lemma ReplacedGet(ps: seq<Prop>, q: nat, name: bytes, value: bytes, other: bytes)
    requires q == FindProp(ps, name, 0) < |ps|
    ensures var qs := ps[q := Prop(name, value)];
      && |qs| == |ps| && (forall i :: 0 <= i < |ps| ==> qs[i].name == ps[i].name)
      && Get(qs, other) == if other == name then Some(value) else Get(ps, other)
  {
    hide FindProp;
    var qs := ps[q := Prop(name, value)];
    FindPropNames(ps, qs, other, 0);
    FindPropNames(ps, qs, name, 0);
  }

  /** What one fixup does to a property of a node. */
  lemma FixOneGet(base: Tree, t: Tree, r: Ref, p: IndexPath, name: bytes)
    requires FixOne(base, t, r.symbol, r.path, r.name, Off(r)).Good? && Has(t, p)
    ensures var u := FixOne(base, t, r.symbol, r.path, r.name, Off(r)).value;
      var v, w := Get(Below(t, p).props, name), Word(LabelPhandle(base, r.symbol).value);
      && SameShape(t, u) && Has(u, p)
      && (Meets(t, r, p, name) ==> v.Some? && Off(r) + 4 <= |v.value|)
      && Get(Below(u, p).props, name) == if Meets(t, r, p, name) then Some(Written(v.value, Off(r), w)) else v
  {
    hide Follow, FindProp, LabelPhandle, Written, Word, SameShape, Get, Put, Below, Has, Decimal;
    FollowHas(t, r.path);
    var p0 := Follow(t, r.path).p;
    var n, q := Below(t, p0), FindProp(Below(t, p0).props, r.name, 0);
    GetFound(n.props, r.name);
    var w := Written(n.props[q].value, Off(r), Word(LabelPhandle(base, r.symbol).value));
    var ps := n.props[q := Prop(r.name, w)];
    ReplacedGet(n.props, q, r.name, w, name);
    PutPropsAt(t, p0, ps, p);
    ShapeProps(t, p0, ps);
  }

  lemma GetFound(ps: seq<Prop>, name: bytes)
    ensures var q := FindProp(ps, name, 0); Get(ps, name) == if q < |ps| then Some(ps[q].value) else None
  {
  }

  lemma ShapeProps(t: Tree, p: IndexPath, ps: seq<Prop>)
    requires Has(t, p) && |ps| == |Below(t, p).props|
    requires forall i :: 0 <= i < |ps| ==> ps[i].name == Below(t, p).props[i].name
    ensures SameShape(t, Put(t, p, Node(Below(t, p).name, ps, Below(t, p).kids)))
  {
    var n := Below(t, p);
    var m := Node(n.name, ps, n.kids);
    forall i | 0 <= i < |n.kids| ensures SameShape(n.kids[i], m.kids[i]) { ShapeSelf(n.kids[i]); }
    assert SameShape(n, m);
    ShapePut(t, p, m);
  }

  /** A value with the cells of the fixups that hit it written one after the other. */
  function Filled(base: Tree, t: Tree, rs: seq<Ref>, p: IndexPath, name: bytes, v: bytes): bytes
    decreases |rs|
  {
    if rs == [] then v
    else
      var ph := LabelPhandle(base, rs[0].symbol);
      Filled(base, t, rs[1..], p, name,
        if Meets(t, rs[0], p, name) && ph.Good? && Off(rs[0]) + 4 <= |v|
        then Written(v, Off(rs[0]), Word(ph.value)) else v)
  }

  /** Resolving fixups changes exactly those cells. */
  lemma {:induction false} FixRefsGet(base: Tree, t: Tree, rs: seq<Ref>, p: IndexPath, name: bytes)
    requires FixRefs(base, t, rs).Good? && Has(t, p)
    ensures var u, v := FixRefs(base, t, rs).value, Get(Below(t, p).props, name);
      && SameShape(t, u) && Has(u, p)
      && Get(Below(u, p).props, name) == (if v.Some? then Some(Filled(base, t, rs, p, name, v.value)) else None)
      && forall i :: 0 <= i < |rs| && Meets(t, rs[i], p, name) ==> v.Some? && Off(rs[i]) + 4 <= |v.value|
    decreases |rs|
  {
    hide Follow, FixOne, LabelPhandle, Written, Word, SameShape, Get, Below, Has, Decimal;
    if rs == [] {
      ShapeSelf(t);
    } else {
      var r := rs[0];
      FixOneGood(base, t, r);
      var u := FixOne(base, t, r.symbol, r.path, r.name, Off(r)).value;
      FixOneGet(base, t, r, p, name);
      FixRefsGet(base, u, rs[1..], p, name);
      ShapeTwice(t, u, FixRefs(base, t, rs).value);
      var v := Get(Below(t, p).props, name);
      var w := Get(Below(u, p).props, name);
      SameHits(base, t, u, rs[1..], p, name, if w.Some? then w.value else []);
      forall i | 0 <= i < |rs| && Meets(t, rs[i], p, name) ensures v.Some? && Off(rs[i]) + 4 <= |v.value| {
        if i > 0 {
          assert rs[1..][i - 1] == rs[i];
          FollowShape(t, u, rs[i].path);
        }
      }
    }
  }

  lemma FixOneGood(base: Tree, t: Tree, r: Ref)
    requires FixOne(base, t, r.symbol, r.path, r.name, Off(r)).Good?
    ensures LabelPhandle(base, r.symbol).Good?
  {
    hide Follow, LabelPhandle;
  }

  lemma {:induction false} SameHits(base: Tree, t: Tree, u: Tree, rs: seq<Ref>, p: IndexPath, name: bytes, v: bytes)
    requires SameShape(t, u)
    ensures Filled(base, t, rs, p, name, v) == Filled(base, u, rs, p, name, v)
    decreases |rs|
  {
    hide Follow, LabelPhandle, SameShape, Written, Decimal;
    if rs != [] {
      FollowShape(t, u, rs[0].path);
      var ph := LabelPhandle(base, rs[0].symbol);
      SameHits(base, t, u, rs[1..], p, name, if Meets(t, rs[0], p, name) && ph.Good? && Off(rs[0]) + 4 <= |v|
        then Written(v, Off(rs[0]), Word(ph.value)) else v);
    }
  }

  /** Fixup `j` writes to the cell at `off` of that property, or to a part of it. */
  predicate Overlaps(t: Tree, r: Ref, p: IndexPath, name: bytes, off: nat) {
    Meets(t, r, p, name) && off < Off(r) + 4 && Off(r) < off + 4
  }

  /** A cell that no fixup overlaps stays. */
  lemma {:induction false} FilledElsewhere(base: Tree, t: Tree, rs: seq<Ref>, p: IndexPath, name: bytes, v: bytes,
                                           x: nat)
    requires x < |v|
    requires forall i :: 0 <= i < |rs| && Meets(t, rs[i], p, name) ==> !(Off(rs[i]) <= x < Off(rs[i]) + 4)
    ensures |Filled(base, t, rs, p, name, v)| == |v| && Filled(base, t, rs, p, name, v)[x] == v[x]
    decreases |rs|
  {
    hide Follow, LabelPhandle, Written, Decimal, Word;
    if rs != [] {
      var ph, r := LabelPhandle(base, rs[0].symbol), rs[0];
      var w := if Meets(t, r, p, name) && ph.Good? && Off(r) + 4 <= |v| then Written(v, Off(r), Word(ph.value)) else v;
      if Meets(t, r, p, name) && ph.Good? && Off(r) + 4 <= |v| { ByteOutside(v, Off(r), Word(ph.value), x); }
      FilledElsewhere(base, t, rs[1..], p, name, w, x);
    }
  }

  lemma ByteOutside(v: bytes, d: nat, w: bytes, x: nat)
    requires d + |w| <= |v| && x < |v| && !(d <= x < d + |w|)
    ensures Written(v, d, w)[x] == v[x]
  {
  }

  lemma {:induction false} FilledSize(base: Tree, t: Tree, rs: seq<Ref>, p: IndexPath, name: bytes, v: bytes)
    ensures |Filled(base, t, rs, p, name, v)| == |v|
    decreases |rs|
  {
    hide Follow, LabelPhandle, Meets, Off;
    if rs != [] {
      var ph := LabelPhandle(base, rs[0].symbol);
      FilledSize(base, t, rs[1..], p, name,
        if Meets(t, rs[0], p, name) && ph.Good? && Off(rs[0]) + 4 <= |v|
        then Written(v, Off(rs[0]), Word(ph.value)) else v);
    }
  }

  lemma {:induction false} FilledCell(base: Tree, t: Tree, rs: seq<Ref>, p: IndexPath, name: bytes, v: bytes, off: nat)
    requires off + 4 <= |v| && forall i :: 0 <= i < |rs| ==> !Overlaps(t, rs[i], p, name, off)
    ensures |Filled(base, t, rs, p, name, v)| == |v| && Be32(Filled(base, t, rs, p, name, v), off) == Be32(v, off)
  {
    hide Follow, LabelPhandle, Filled, Decimal, Cell;
    var w := Filled(base, t, rs, p, name, v);
    FilledSize(base, t, rs, p, name, v);
    forall x | off <= x < off + 4 ensures w[x] == v[x] {
      forall i | 0 <= i < |rs| && Meets(t, rs[i], p, name) ensures !(Off(rs[i]) <= x < Off(rs[i]) + 4) {
        assert !Overlaps(t, rs[i], p, name, off);
      }
      FilledElsewhere(base, t, rs, p, name, v, x);
    }
    SameCell(v, w, off);
  }

  lemma SameCell(v: bytes, w: bytes, off: nat)
    requires off + 4 <= |v| == |w| && forall x :: off <= x < off + 4 ==> w[x] == v[x]
    ensures w[off..off + 4] == v[off..off + 4]
  {
  }

  /** The cell of a fixup that no later one overlaps holds the phandle of its label. */
  lemma {:induction false} FilledLast(base: Tree, t: Tree, rs: seq<Ref>, p: IndexPath, name: bytes, v: bytes, k: nat)
    requires k < |rs| && Meets(t, rs[k], p, name) && Off(rs[k]) + 4 <= |v| && LabelPhandle(base, rs[k].symbol).Good?
    requires forall i :: k < i < |rs| ==> !Overlaps(t, rs[i], p, name, Off(rs[k]))
    ensures var w := Filled(base, t, rs, p, name, v);
      |w| == |v| && Be32(w, Off(rs[k])) == LabelPhandle(base, rs[k].symbol).value
    decreases k
  {
    hide Follow, LabelPhandle, Written, Decimal, Word, Overlaps, Be32;
    var ph, r := LabelPhandle(base, rs[0].symbol), rs[0];
    var w := if Meets(t, r, p, name) && ph.Good? && Off(r) + 4 <= |v| then Written(v, Off(r), Word(ph.value)) else v;
    if k == 0 {
      CellWritten(v, Off(r), ph.value);
      FilledCell(base, t, rs[1..], p, name, w, Off(r));
    } else {
      assert rs[1..][k - 1] == rs[k];
      FilledLast(base, t, rs[1..], p, name, w, k - 1);
    }
  }

  lemma CellWritten(v: bytes, off: nat, ph: u32)
    requires off + 4 <= |v|
    ensures Be32(Written(v, off, Word(ph)), off) == ph
  {
    hide Cell, Word;
    WrittenParts(v, off, Word(ph));
    CellOfWord(ph);
  }

  /** Whether a fixup can be resolved does not depend on those resolved before it. */
  lemma ResolvableStill(base: Tree, t: Tree, u: Tree, r: Ref, x: Ref)
    requires FixOne(base, t, x.symbol, x.path, x.name, Off(x)) == Good(u)
    ensures Resolvable(base, t, r) <==> Resolvable(base, u, r)
  {
    hide Follow, FixOne, LabelPhandle, Labelled, SameShape, Get, Below, Has, Decimal, Written, Word, Phandle;
    FollowHas(t, r.path);
    FixOneGet(base, t, x, [], []) by { assert Has(t, []) by { HasTop(t); } }
    FollowShape(t, u, r.path);
    if Follow(t, r.path).Got? { FixOneGet(base, t, x, Follow(t, r.path).p, r.name); }
  }

  lemma FixOneExact(base: Tree, t: Tree, r: Ref)
    ensures FixOne(base, t, r.symbol, r.path, r.name, Off(r)).Good? <==> Resolvable(base, t, r)
  {
    hide Follow, LabelPhandle, Labelled, Written, Word, Put, Below, Has, Decimal, FindProp, Get, Phandle;
    LabelIs(base, r.symbol);
    LabelSome(base, r.symbol);
    FollowHas(t, r.path);
    if Follow(t, r.path).Got? { GetFound(Below(t, Follow(t, r.path).p).props, r.name); }
  }

  lemma LabelSome(base: Tree, symbol: bytes)
    ensures LabelPhandle(base, symbol).Good? <==>
      exists m: Loc :: Labelled(base, symbol, m) && Phandle(m.node.props) != 0
  {
    hide Resolve, StrAt, FindKid, Get, Phandle;
    var s := FindKid(base.kids, SYMBOLS, 0);
    if LabelPhandle(base, symbol).Good? {
      var m := Resolve(Loc(Top, base), StrAt(Get(base.kids[s].props, symbol).value, 0)).l;
      assert Labelled(base, symbol, m) && Phandle(m.node.props) != 0;
    }
  }

  /** All fixups are resolved exactly when each can be. */
  lemma {:induction false} FixRefsExact(base: Tree, t: Tree, rs: seq<Ref>)
    ensures FixRefs(base, t, rs).Good? <==> forall i :: 0 <= i < |rs| ==> Resolvable(base, t, rs[i])
    decreases |rs|
  {
    hide FixOne, Resolvable;
    if rs != [] {
      FixOneExact(base, t, rs[0]);
      var r := FixOne(base, t, rs[0].symbol, rs[0].path, rs[0].name, Off(rs[0]));
      if r.Good? {
        FixRefsExact(base, r.value, rs[1..]);
        forall i | 0 <= i < |rs| ensures Resolvable(base, t, rs[i]) <==> Resolvable(base, r.value, rs[i]) {
          ResolvableStill(base, t, r.value, rs[i], rs[0]);
        }
        if forall i :: 0 <= i < |rs[1..]| ==> Resolvable(base, r.value, rs[1..][i]) {
          forall i | 0 <= i < |rs| ensures Resolvable(base, t, rs[i]) {
            if i > 0 { assert rs[1..][i - 1] == rs[i]; }
          }
        }
      }
    }
  }

  /** `overlay_fixup_phandles` succeeds exactly when there are no fixups, or they are spelled as fixups are and each
      can be resolved. */
  lemma FixAllExact(base: Tree, t: Tree)
    ensures FixAll(base, t).Good? <==>
      var f := FindKid(t.kids, FIXUPS, 0);
      f == |t.kids| || exists rss :: AllList(t.kids[f].props, rss) && AllResolvable(base, t, Flat(rss))
  {
    hide FixProps, AllList, FindKid, FixRefs, Resolvable;
    var f := FindKid(t.kids, FIXUPS, 0);
    if f < |t.kids| {
      if FixAll(base, t).Good? {
        var rss := AllResolvedList(base, t, t.kids[f].props);
        PropsAreRefs(base, t, t.kids[f].props, rss);
        FixRefsExact(base, t, Flat(rss));
        assert AllList(t.kids[f].props, rss) && AllResolvable(base, t, Flat(rss));
      }
      if rss :| AllList(t.kids[f].props, rss) && AllResolvable(base, t, Flat(rss)) {
        PropsAreRefs(base, t, t.kids[f].props, rss);
        FixRefsExact(base, t, Flat(rss));
      }
    }
  }

  ghost predicate AllResolvable(base: Tree, t: Tree, rs: seq<Ref>) {
    forall i :: 0 <= i < |rs| ==> Resolvable(base, t, rs[i])
  }

  /** Why a fixup cannot be resolved: no such label, no such node, no such property, or no such cell. */
  lemma FixRefused(base: Tree, t: Tree, r: Ref)
    ensures var u := FixOne(base, t, r.symbol, r.path, r.name, Off(r));
      u.Bad? ==> u == Bad(
        if forall m: Loc :: Labelled(base, r.symbol, m) ==> Phandle(m.node.props) == 0 then -1
        else if Follow(t, r.path).Lost? then -16
        else if !Has(t, Follow(t, r.path).p) || Get(Below(t, Follow(t, r.path).p).props, r.name).None? then -1
        else -3)
  {
    hide Follow, LabelPhandle, Labelled, Written, Word, Put, Below, Has, Decimal, FindProp, Get, Phandle;
    LabelIs(base, r.symbol);
    LabelSome(base, r.symbol);
    FollowHas(t, r.path);
    if Follow(t, r.path).Got? { GetFound(Below(t, Follow(t, r.path).p).props, r.name); }
  }
}
