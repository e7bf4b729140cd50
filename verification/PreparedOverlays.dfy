/** What an overlay holds when its fragments are merged, told from the base and from the overlay as it was: phandles,
    references inside the overlay, and references into the base. */
module PreparedOverlays {
  import opened Bytes
  import opened Strings
  import opened CString
  import opened Trees
  import opened Walk
  import opened Lexer
  import opened Preorder
  import opened FdtRo
  import opened FdtRoPath
  import opened FdtRoPhandle
  import opened IndexPaths
  import opened Merge
  import opened Renumber
  import opened RenumberExact
  import opened References
  import opened Fixups
  import opened FixedCells
  import Labels
  import opened LocalFixups
  import opened FdtOverlay
  import opened Fdt
  import opened Views
  import opened FdtOverlayMerge
  import opened MergeSteps
  import opened NamePaths
  import opened SymbolPaths
  import opened Renumbered
  import opened Symbols
  import opened Targets

  /** The fixups into the base, as the overlay lists them. */
  predicate FixupsAre(t: Tree, rss: seq<seq<Labels.Ref>>) {
    var fx := FindKid(t.kids, FIXUPS, 0);
    if fx < |t.kids| then Labels.AllList(t.kids[fx].props, rss) else rss == []
  }

  /** No fixup is about a phandle. */
  predicate NoPhandleCells(rs: seq<Labels.Ref>) {
    forall i :: 0 <= i < |rs| ==> rs[i].name != PHANDLE && rs[i].name != LINUX_PHANDLE
  }

  /** An overlay of this base that can be read so. */
  ghost predicate Readied(base: Tree, t: Tree, ov: Tree, rss: seq<seq<Labels.Ref>>) {
    IsPrepared(base, t, ov) && Tidy(t) && FixupsAre(t, rss)
  }

  /** The three stages. */
  lemma Stages(base: Tree, t: Tree, ov: Tree, rss: seq<seq<Labels.Ref>>) returns (delta: u32, t1: Tree, t2: Tree)
    requires Readied(base, t, ov, rss)
    ensures Largest(base, delta) && Adjust(t, delta) == Good(t1) && LocalReferences(t1, delta) == Good(t2)
    ensures Labels.FixRefs(base, t2, Labels.Flat(rss)) == Good(ov)
  {
    hide Largest, Adjust, LocalReferences, FixProps, Labels.FixRefs, FindKid, Tidy, Labels.AllList;
    delta :| Largest(base, delta) && Prepared(base, t, delta) == Good(ov);
    t1 := Adjust(t, delta).value;
    t2 := LocalReferences(t1, delta).value;
    RenumberedFixups(t, delta, t1, t2);
    var fx := FindKid(t.kids, FIXUPS, 0);
    if fx < |t.kids| {
      Labels.PropsAreRefs(base, t2, t2.kids[fx].props, rss);
    } else {
      assert Labels.Flat([]) == [];
      NoRefs(base, t2);
    }
  }

  lemma NoRefs(base: Tree, t: Tree)
    ensures Labels.FixRefs(base, t, []) == Good(t)
  {
  }

  /** Every overlay that is prepared lists its fixups so. */
  lemma ListsExist(base: Tree, t: Tree, ov: Tree) returns (rss: seq<seq<Labels.Ref>>)
    requires IsPrepared(base, t, ov) && Tidy(t)
    ensures FixupsAre(t, rss)
  {
    hide Largest, Adjust, LocalReferences, FixProps, FindKid, Tidy, Labels.AllList;
    var delta: u32 :| Largest(base, delta) && Prepared(base, t, delta) == Good(ov);
    var t1 := Adjust(t, delta).value;
    var t2 := LocalReferences(t1, delta).value;
    RenumberedFixups(t, delta, t1, t2);
    var fx := FindKid(t.kids, FIXUPS, 0);
    rss := [];
    if fx < |t.kids| { rss := Labels.AllResolvedList(base, t2, t2.kids[fx].props); }
  }

  /** A fixup is about the same cell before and after renumbering. */
  lemma SameHit(t: Tree, u: Tree, r: Labels.Ref, p: IndexPath, name: bytes)
    requires SameShape(t, u)
    ensures Meets(t, r, p, name) <==> Meets(u, r, p, name)
    ensures forall off: nat :: Overlaps(t, r, p, name, off) <==> Overlaps(u, r, p, name, off)
  {
    hide Follow, SameShape;
    FollowShape(t, u, r.path);
  }

  /** A property that is prepared: the cells of the local references moved up, then the cells of the fixups filled. */
  lemma PreparedGet(base: Tree, t: Tree, ov: Tree, rss: seq<seq<Labels.Ref>>, p: IndexPath, name: bytes)
    returns (delta: u32, w: Value)
    requires Readied(base, t, ov, rss) && Has(t, p) && name != PHANDLE && name != LINUX_PHANDLE
    ensures SameShape(t, ov) && Has(ov, p) && Largest(base, delta)
    ensures MovedUp(Get(Below(t, p).props, name), LocalRefs(t, p, name), delta) == Good(w)
    ensures Get(Below(ov, p).props, name) ==
      if w.Some? then Some(Filled(base, t, Labels.Flat(rss), p, name, w.value)) else None
    ensures forall i :: 0 <= i < |Labels.Flat(rss)| && Meets(t, Labels.Flat(rss)[i], p, name) ==>
      w.Some? && Labels.Off(Labels.Flat(rss)[i]) + 4 <= |w.value|
  {
    hide Largest, Adjust, LocalReferences, Labels.FixRefs, Tidy, FixupsAre, SameShape, Has, Below, Get, MovedUp,
      LocalRefs, Follow, IsPrepared, Meets, Labels.Off;
    var t1, t2;
    delta, t1, t2 := Stages(base, t, ov, rss);
    var rs := Labels.Flat(rss);
    RenumberedGet(t, delta, t1, t2, p, name);
    w := Get(Below(t2, p).props, name);
    FixRefsGet(base, t2, rs, p, name);
    ShapeTwice(t, t2, ov);
    if w.Some? { SameHits(base, t, t2, rs, p, name, w.value); }
    forall i | 0 <= i < |rs| && Meets(t, rs[i], p, name) ensures Meets(t2, rs[i], p, name) {
      SameHit(t, t2, rs[i], p, name);
    }
  }

  /** A reference into the base is resolved: the cell that a fixup names, and that no later fixup overlaps, holds the
      phandle of the node that the label leads to. */
  lemma ExternalResolved(base: Tree, t: Tree, ov: Tree, rss: seq<seq<Labels.Ref>>, p: IndexPath, k: nat)
    returns (m: Loc)
    requires Readied(base, t, ov, rss) && k < |Labels.Flat(rss)| && Has(t, p)
    requires var r := Labels.Flat(rss)[k];
      && Meets(t, r, p, r.name) && r.name != PHANDLE && r.name != LINUX_PHANDLE
      && forall i :: k < i < |Labels.Flat(rss)| ==> !Overlaps(t, Labels.Flat(rss)[i], p, r.name, Labels.Off(r))
    ensures var r := Labels.Flat(rss)[k];
      && Labelled(base, r.symbol, m) && Phandle(m.node.props) != 0
      && Has(ov, p) && Get(Below(ov, p).props, r.name).Some?
      && var w := Get(Below(ov, p).props, r.name).value;
        Labels.Off(r) + 4 <= |w| && Be32(w, Labels.Off(r)) == Phandle(m.node.props)
  {
    hide Largest, Adjust, LocalReferences, Labels.FixRefs, Tidy, FixupsAre, SameShape, Has, Below, Get, MovedUp,
      LocalRefs, IsPrepared, Labels.Off, Phandle, Labelled, Filled, LabelPhandle, Meets, Overlaps;
    var rs := Labels.Flat(rss);
    var r := rs[k];
    var delta, w := PreparedGet(base, t, ov, rss, p, r.name);
    RefLabelled(base, t, ov, rss, k);
    LabelIs(base, r.symbol);
    m :| Labelled(base, r.symbol, m);
    FilledLast(base, t, rs, p, r.name, w.value, k);
  }

  /** The same of a blob that an overlay was applied to: the overlay that was merged is what its buffer then holds. */
  method ApplyResolves(fdt: Blob, fdto: Blob, ghost rss: seq<seq<Labels.Ref>>, ghost p: IndexPath, ghost k: nat)
    returns (ret: int, ghost m: Loc)
    requires Ready(fdt, fdto) && Tidy(fdto.v.tree) && FixupsAre(fdto.v.tree, rss)
    requires k < |Labels.Flat(rss)| && Has(fdto.v.tree, p)
    requires var t, r := fdto.v.tree, Labels.Flat(rss)[k];
      && Meets(t, r, p, r.name) && r.name != PHANDLE && r.name != LINUX_PHANDLE
      && forall i :: k < i < |Labels.Flat(rss)| ==> !Overlaps(t, Labels.Flat(rss)[i], p, r.name, Labels.Off(r))
    modifies fdt, fdt.buf, fdto, fdto.buf
    ensures ret == 0 ==> IsApplied(old(fdt.v.tree), fdto.v.tree, fdt.v.tree)
    ensures ret == 0 ==>
      var r, ov := Labels.Flat(rss)[k], fdto.v.tree;
      && Labelled(old(fdt.v.tree), r.symbol, m) && Phandle(m.node.props) != 0
      && Has(ov, p) && Get(Below(ov, p).props, r.name).Some?
      && var w := Get(Below(ov, p).props, r.name).value;
        Labels.Off(r) + 4 <= |w| && Be32(w, Labels.Off(r)) == Phandle(m.node.props)
  {
    hide Editable, Legible, Acceptable, Largest, Tidy, FixupsAre, Labels.Flat, Meets, Overlaps, Labelled, Has, Below,
      Get, Phandle, Labels.Off, IsPrepared, IsApplied, ApplyResult, Applied;
    ghost var base, t := fdt.v.tree, fdto.v.tree;
    EditableReadable(fdt);
    EditableReadable(fdto);
    ghost var delta: u32;
    m := Loc(Top, t);
    ret, delta := OverlayApply(fdt, fdto);
    if ret != 0 { return; }
    m := ExternalResolved(base, t, fdto.v.tree, rss, p, k);
  }

  lemma RefLabelled(base: Tree, t: Tree, ov: Tree, rss: seq<seq<Labels.Ref>>, k: nat)
    requires Readied(base, t, ov, rss) && k < |Labels.Flat(rss)|
    ensures LabelPhandle(base, Labels.Flat(rss)[k].symbol).Good?
  {
    hide Largest, Adjust, LocalReferences, Labels.FixRefs, Tidy, FixupsAre, IsPrepared, LabelPhandle, Labelled, Phandle;
    var _, _, t2 := Stages(base, t, ov, rss);
    FixRefsExact(base, t2, Labels.Flat(rss));
    assert Resolvable(base, t2, Labels.Flat(rss)[k]);
    LabelSome(base, Labels.Flat(rss)[k].symbol);
  }

  /** Every phandle of the overlay is moved up by the largest phandle of the base, and so is no phandle of the base. */
  lemma PhandlesAreNew(base: Tree, t: Tree, ov: Tree, rss: seq<seq<Labels.Ref>>, p: IndexPath) returns (delta: u32)
    requires Readied(base, t, ov, rss) && NoPhandleCells(Labels.Flat(rss)) && Has(t, p)
    ensures Largest(base, delta) && SameShape(t, ov) && Has(ov, p)
    ensures var a, c := Below(t, p).props, Below(ov, p).props;
      && Phandle(c) == (if HasPhandle(a) then Phandle(a) + delta else 0) && Phandle(c) < NO_PHANDLE
      && (Phandle(a) != 0 ==> forall m: Loc :: Whole(m) == base ==> Phandle(m.node.props) != Phandle(c))
  {
    hide Adjust, LocalReferences, Labels.FixRefs, Tidy, FixupsAre, SameShape, Has, Below, Get, IsPrepared, Phandle,
      HasPhandle, HasCell, Whole;
    var t1, t2;
    delta, t1, t2 := Stages(base, t, ov, rss);
    RenumberedPhandle(t, delta, t1, t2, p);
    RenumberedGet(t, delta, t1, t2, p, []);
    PhandleFixed(base, t2, ov, Labels.Flat(rss), p);
    ShapeTwice(t, t2, ov);
    NoPhandle(Below(t, p).props);
  }

  /** Fixups that are about no phandle leave the phandles alone. */
  lemma PhandleFixed(base: Tree, t: Tree, u: Tree, rs: seq<Labels.Ref>, p: IndexPath)
    requires Labels.FixRefs(base, t, rs) == Good(u) && NoPhandleCells(rs) && Has(t, p)
    ensures SameShape(t, u) && Has(u, p) && Phandle(Below(u, p).props) == Phandle(Below(t, p).props)
  {
    hide Labels.FixRefs, SameShape, Has, Below, Get, Phandle, HasCell, Follow, Filled;
    FixRefsGet(base, t, rs, p, PHANDLE);
    FixRefsGet(base, t, rs, p, LINUX_PHANDLE);
    var a := Get(Below(t, p).props, PHANDLE);
    var b := Get(Below(t, p).props, LINUX_PHANDLE);
    if a.Some? { FilledNot(base, t, rs, p, PHANDLE, a.value); }
    if b.Some? { FilledNot(base, t, rs, p, LINUX_PHANDLE, b.value); }
    PhandleGet(Below(t, p).props);
    PhandleGet(Below(u, p).props);
  }

  lemma {:induction false} FilledNot(base: Tree, t: Tree, rs: seq<Labels.Ref>, p: IndexPath, name: bytes, v: bytes)
    requires forall i :: 0 <= i < |rs| ==> rs[i].name != name
    ensures Filled(base, t, rs, p, name, v) == v
    decreases |rs|
  {
    hide Follow, LabelPhandle;
    if rs != [] { FilledNot(base, t, rs[1..], p, name, v); }
  }

  /** A node that was the first with a phandle is the first with the renumbered one. */
  lemma FirstKept(base: Tree, t: Tree, ov: Tree, rss: seq<seq<Labels.Ref>>, w: u32, g: IndexPath) returns (delta: u32)
    requires Readied(base, t, ov, rss) && NoPhandleCells(Labels.Flat(rss))
    requires w != 0 && Has(t, g) && FirstWith(t, w, At(Loc(Top, t), g))
    ensures Largest(base, delta) && w + delta < NO_PHANDLE && Has(ov, g)
    ensures FirstWith(ov, w + delta, At(Loc(Top, ov), g))
  {
    hide Readied, SameShape, Has, Below, Phandle, HasPhandle, FirstWith, Locs, PathList, At, NoPhandleCells, Whole,
      Largest, Bounded;
    var l, m := Loc(Top, t), Loc(Top, ov);
    delta := PhandlesAreNew(base, t, ov, rss, g);
    LocsArePaths(l);
    LocsArePaths(m);
    PathListShape(t, ov);
    var a, b := Locs(l), Locs(m);
    PhandleMeans(t, w, At(l, g));
    var k := FirstPhandle(a, w, 0);
    SamePath(l, PathList(t)[k], g);
    ShapeHas(t, ov, g);
    forall i | 0 <= i < |a|
      ensures Phandle(a[i].node.props) == w ==> w + delta < NO_PHANDLE
      ensures w + delta < NO_PHANDLE ==> (Phandle(a[i].node.props) == w <==> Phandle(b[i].node.props) == w + delta)
    {
      var p := PathList(t)[i];
      var d := PhandlesAreNew(base, t, ov, rss, p);
      LargestOnce(base, d, delta);
      AtBelow(l, p);
      AtBelow(m, p);
      NoPhandle(Below(t, p).props);
    }
    FirstSame(a, b, w, w + delta, 0);
    PhandleMeans(ov, w + delta, At(m, g));
  }

  /** A reference inside the overlay, listed by the bytes of the local fixups and by nothing else: the cell moves up,
      and leads to the node that it led to. */
  lemma LocalKept(base: Tree, t: Tree, ov: Tree, rss: seq<seq<Labels.Ref>>, p: IndexPath, name: bytes, js: IndexPath,
                  a: nat, offs: seq<u32>, k: nat, g: IndexPath) returns (delta: u32)
    requires Readied(base, t, ov, rss) && NoPhandleCells(Labels.Flat(rss)) && Has(t, p)
    requires name != PHANDLE && name != LINUX_PHANDLE && FindKid(t.kids, LOCAL_FIXUPS, 0) < |t.kids|
    requires var fix := t.kids[FindKid(t.kids, LOCAL_FIXUPS, 0)];
      ListedOnce(t, fix, p, name, js, a) && Below(fix, js).props[a].value == Listed(offs)
    requires k < |offs| && Get(Below(t, p).props, name).Some? && Separate(offs, |Get(Below(t, p).props, name).value|)
    requires forall i :: 0 <= i < |Labels.Flat(rss)| ==> !Overlaps(t, Labels.Flat(rss)[i], p, name, offs[k])
    ensures Largest(base, delta) && Has(ov, p) && Get(Below(ov, p).props, name).Some?
    ensures var v, after := Get(Below(t, p).props, name).value, Get(Below(ov, p).props, name).value;
      && offs[k] + 4 <= |v| == |after| && Be32(after, offs[k]) == U32(Be32(v, offs[k]) + delta)
      && (Be32(v, offs[k]) != 0 && Has(t, g) && FirstWith(t, Be32(v, offs[k]), At(Loc(Top, t), g)) ==>
        && Be32(after, offs[k]) == Be32(v, offs[k]) + delta < NO_PHANDLE && Has(ov, g)
        && FirstWith(ov, Be32(after, offs[k]), At(Loc(Top, ov), g)))
  {
    hide Readied, SameShape, Has, Below, Phandle, FirstWith, At, NoPhandleCells, Whole, Get, FindKid, ListedOnce,
      ListedBy, Listed, Separate, Overlaps, Filled, Be32, UpdateCells, Cells, Largest, RefsAt, U32;
    var fix := t.kids[FindKid(t.kids, LOCAL_FIXUPS, 0)];
    var w;
    delta, w := PreparedGet(base, t, ov, rss, p, name);
    var v := Get(Below(t, p).props, name).value;
    RefsAtOnce(t, fix, p, name, js, a);
    CellsOfListed(offs);
    SeparateAt(offs, |v|, k);
    CellsListed(v, offs, delta, k);
    FilledCell(base, t, Labels.Flat(rss), p, name, w.value, offs[k]);
    var x := Be32(v, offs[k]);
    if x != 0 && Has(t, g) && FirstWith(t, x, At(Loc(Top, t), g)) {
      var d := FirstKept(base, t, ov, rss, x, g);
      LargestOnce(base, d, delta);
      SmallSum(x + delta);
    }
  }

  lemma SmallSum(x: int)
    requires 0 <= x < TWO32
    ensures U32(x) == x
  {
  }

  /** Everything else stays: a byte that no fixup of either kind names, and a property that is not there. */
  lemma PreparedElsewhere(base: Tree, t: Tree, ov: Tree, rss: seq<seq<Labels.Ref>>, p: IndexPath, name: bytes, x: nat)
    requires Readied(base, t, ov, rss) && Has(t, p) && name != PHANDLE && name != LINUX_PHANDLE
    requires var lf := FindKid(t.kids, LOCAL_FIXUPS, 0);
      lf < |t.kids| ==> forall js: IndexPath, a: nat :: ListedBy(t, t.kids[lf], p, name, js, a) ==>
        NotListed(Cells(Below(t.kids[lf], js).props[a].value), x)
    requires forall i :: 0 <= i < |Labels.Flat(rss)| && Meets(t, Labels.Flat(rss)[i], p, name) ==>
      !(Labels.Off(Labels.Flat(rss)[i]) <= x < Labels.Off(Labels.Flat(rss)[i]) + 4)
    ensures SameShape(t, ov) && Has(ov, p)
    ensures var v, after := Get(Below(t, p).props, name), Get(Below(ov, p).props, name);
      && (v.None? <==> after.None?)
      && (v.Some? ==> |v.value| == |after.value| && (x < |v.value| ==> after.value[x] == v.value[x]))
  {
    hide Readied, SameShape, Has, Below, Get, FindKid, Filled, UpdateCells, Cells, Largest, RefsAt, Meets, Labels.Off,
      About;
    var delta, w := PreparedGet(base, t, ov, rss, p, name);
    var v := Get(Below(t, p).props, name);
    if v.Some? {
      var offs := LocalRefs(t, p, name);
      forall i | 0 <= i < |offs| ensures !(offs[i] as int <= x < offs[i] as int + 4) {
        var fix := t.kids[FindKid(t.kids, LOCAL_FIXUPS, 0)];
        var js, a := RefsAtOnly(t, fix, p, name, offs[i]);
        assert offs[i] in Cells(Below(fix, js).props[a].value);
      }
      UpdateCellsExact(v.value, offs, delta);
      FilledSize(base, t, Labels.Flat(rss), p, name, w.value);
      if x < |v.value| {
        CellsElsewhere(v.value, offs, delta, x);
        FilledElsewhere(base, t, Labels.Flat(rss), p, name, w.value, x);
      }
    }
  }

  predicate NotListed(offs: seq<u32>, x: nat) {
    forall o :: o in offs ==> !(o as int <= x < o as int + 4)
  }

  /** An overlay can be prepared exactly when every phandle can be moved up, every local fixup is about cells of the
      overlay, and every fixup is spelled as fixups are and names a cell of the overlay and a label of the base. */
  lemma PreparedExact(base: Tree, t: Tree, delta: u32)
    ensures Prepared(base, t, delta).Good? <==>
      && AllCanMove(t, delta)
      && Adjust(t, delta).Good? && LocalFits(Adjust(t, delta).value)
      && LocalReferences(Adjust(t, delta).value, delta).Good?
      && FixupsFit(base, LocalReferences(Adjust(t, delta).value, delta).value)
  {
    hide Adjust, LocalReferences, FixAll, AllCanMove, LocalFits, FixupsFit;
    AdjustExact(t, delta);
    if Adjust(t, delta).Good? {
      var t1 := Adjust(t, delta).value;
      LocalExact(t1, delta);
      if LocalReferences(t1, delta).Good? {
        FixAllExact(base, LocalReferences(t1, delta).value);
        FixupsFitIs(base, LocalReferences(t1, delta).value);
      }
    }
  }

  predicate LocalFits(t: Tree) {
    var lf := FindKid(t.kids, LOCAL_FIXUPS, 0);
    lf < |t.kids| ==> FixFits(t, t.kids[lf])
  }

  lemma LocalExact(t: Tree, delta: u32)
    ensures LocalReferences(t, delta).Good? <==> LocalFits(t)
  {
    hide FindKid, UpdateNode, FixFits;
    var lf := FindKid(t.kids, LOCAL_FIXUPS, 0);
    if lf < |t.kids| { UpdateExact(t, t.kids[lf], delta); }
  }

  ghost predicate FixupsFit(base: Tree, t: Tree) {
    exists rss :: FixupsAre(t, rss) && AllResolvable(base, t, Labels.Flat(rss))
  }

  lemma FixupsFitIs(base: Tree, t: Tree)
    ensures FixupsFit(base, t) <==>
      var f := FindKid(t.kids, FIXUPS, 0);
      f == |t.kids| || exists rss :: Labels.AllList(t.kids[f].props, rss) && AllResolvable(base, t, Labels.Flat(rss))
  {
    hide FindKid, Labels.AllList, Resolvable;
    var f := FindKid(t.kids, FIXUPS, 0);
    if f == |t.kids| { assert FixupsAre(t, []) && Labels.Flat([]) == [] && AllResolvable(base, t, []); }
    if rss :| f < |t.kids| && Labels.AllList(t.kids[f].props, rss) && AllResolvable(base, t, Labels.Flat(rss)) {
      assert FixupsAre(t, rss);
    }
  }

  /** An overlay can be applied, given room, exactly when it can be prepared, each fragment then finds its target in
      the tree that those before it leave, and each symbol is spelled as symbols are and is about a fragment with a
      target. */
  lemma AppliedExact(base: Tree, t: Tree, delta: u32)
    requires Prepared(base, t, delta).Good? ==> GoodSymbols(Prepared(base, t, delta).value)
    ensures Applied(base, t, delta).Good? <==>
      && Prepared(base, t, delta).Good?
      && AllHit(base, Prepared(base, t, delta).value)
      && AllFit(base, Prepared(base, t, delta).value)
  {
    hide Prepared, MergeFrags, AddSymbols, TargetOf, FindKid, WithKid, SymbolFits, MergeSteps.Hits;
    if Prepared(base, t, delta).Good? {
      var ov := Prepared(base, t, delta).value;
      FragmentsExact(base, ov.kids);
      if MergeFrags(base, ov.kids).Ok? && HasSymbols(ov) {
        var b := WithSymbols(MergeFrags(base, ov.kids).tree);
        WithKidFinds(MergeFrags(base, ov.kids).tree.kids, SYMBOLS);
        AddSymbolsExact(b, FindKid(b.kids, SYMBOLS, 0), ov, SymbolsIn(ov));
      }
    }
  }

  predicate AllHit(base: Tree, ov: Tree) {
    forall k :: 0 <= k < |ov.kids| ==> MergeSteps.Hits(base, ov.kids, k)
  }

  ghost predicate AllFit(base: Tree, ov: Tree) {
    HasSymbols(ov) && MergeFrags(base, ov.kids).Ok? ==>
      forall i :: 0 <= i < |SymbolsIn(ov)| ==>
        SymbolFits(WithSymbols(MergeFrags(base, ov.kids).tree), ov, SymbolsIn(ov)[i])
  }
}
