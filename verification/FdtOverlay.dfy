/** fdt_overlay.c: `fdt_overlay_apply`. */
module FdtOverlay {
  import opened Bytes
  import opened Trees
  import opened Lexer
  import opened Walk
  import opened Views
  import opened Fdt
  import opened Preorder
  import opened FdtRo
  import opened FdtRoPath
  import opened FdtRoTree
  import opened Grafts
  import opened FdtRoPhandle
  import opened FdtRw
  import opened FdtOverlayMerge
  import opened FdtOverlayPhandles
  import opened FdtOverlayFixups
  import opened FdtOverlaySymbols
  import opened Fixups
  import opened FoundPaths
  import opened IndexPaths
  import opened Levels
  import opened Merge
  import opened NamePaths
  import opened References
  import opened Renumber
  import opened Symbols
  import opened SymbolLevels
  import opened SymbolPaths

  /** The overlay once its phandles are moved up by `delta`, its local references follow, and its references into the
      base are resolved. */
  function Prepared(base: Tree, ov: Tree, delta: u32): Result<Tree> {
    match Adjust(ov, delta)
    case Bad(e) => Bad(e)
    case Good(t1) =>
      match LocalReferences(t1, delta)
      case Bad(e) => Bad(e)
      case Good(t2) => FixAll(base, t2)
  }

  /** Applying an overlay: prepare it, merge its fragments, add its symbols. */
  function Applied(base: Tree, ov: Tree, delta: u32): Result<Tree> {
    match Prepared(base, ov, delta)
    case Bad(e) => Bad(e)
    case Good(t) =>
      match MergeFrags(base, t.kids)
      case Fail(e) => Bad(e)
      case Ok(merged) => UpdateSymbols(merged, t)
  }

  /** What merging and adding symbols return: the first failure, be it a lack of room or something that is missing. */
  function MergeResult(f: Level, base: Tree, ov: Tree): int {
    match FragsFill(f, base, ov.kids)
    case Bursts(_) => -ERR_NOSPACE
    case Fits(g) =>
      match MergeFrags(base, ov.kids)
      case Fail(e) => e
      case Ok(merged) =>
        match UpdateFill(g, merged, ov)
        case Bursts(_) => -ERR_NOSPACE
        case Fits(_) => match UpdateSymbols(merged, ov) case Bad(e) => e case Good(_) => 0
  }

  /** With room for all that the fragments bring, an overlay without symbols never fails for lack of room. */
  lemma EnoughRoom(f: Level, base: Tree, ov: Tree)
    requires !HasSymbols(ov) && f.used + FragsBulk(ov.kids) <= f.total
    ensures MergeResult(f, base, ov) == match MergeFrags(base, ov.kids) case Fail(e) => e case Ok(_) => 0
  {
    hide FragsFill, MergeFrags, FragsBulk;
    FragsBulkFits(f, base, ov.kids);
  }

  /** What applying an overlay to a base of that level returns. */
  function ApplyResult(f: Level, base: Tree, ov: Tree, delta: u32): int {
    match Prepared(base, ov, delta)
    case Bad(e) => e
    case Good(t) => MergeResult(f, base, t)
  }

  /** Overlays whose paths can be followed; each stage is asked about the tree that it gets. */
  ghost predicate Acceptable(base: Tree, ov: Tree, delta: u32) {
    && FineSymbols(base)
    && (Adjust(ov, delta).Good? ==>
      var t1 := Adjust(ov, delta).value;
      GoodFixups(t1) && (LocalReferences(t1, delta).Good? ==> FineFixups(LocalReferences(t1, delta).value)))
    && (Prepared(base, ov, delta).Good? ==>
      var t := Prepared(base, ov, delta).value;
      && GoodSymbols(t) && GoodTargets(t.kids)
      && (HasSymbols(t) && MergeFrags(base, t.kids).Ok? ==> AllNameable(MergeFrags(base, t.kids).tree)))
  }

  /** The largest phandle of a tree, those that are all ones left out, or 0. */
  ghost predicate Largest(t: Tree, delta: u32) {
    && Bounded(t, delta) && delta != NO_PHANDLE
    && (delta == 0 || exists m: Loc :: Whole(m) == t && Phandle(m.node.props) == delta)
  }

  /** There is only one. */
  lemma LargestOnce(t: Tree, d: u32, e: u32)
    requires Largest(t, d) && Largest(t, e)
    ensures d == e
  {
    hide Phandle, Whole;
    if d != 0 {
      var m: Loc :| Whole(m) == t && Phandle(m.node.props) == d;
    }
    if e != 0 {
      var m: Loc :| Whole(m) == t && Phandle(m.node.props) == e;
    }
  }

  /** The phandles of a tree that are not all ones are at most `delta`. */
  ghost predicate Bounded(t: Tree, delta: u32) {
    forall m: Loc :: Whole(m) == t && Phandle(m.node.props) != NO_PHANDLE ==> Phandle(m.node.props) <= delta
  }

  /** The first three stages work on the overlay alone. */
  method Prepare(fdt: Blob, fdto: Blob, delta: u32) returns (ret: int)
    requires fdt != fdto && fdt.buf != fdto.buf && fdt.Readable() && HeaderError(fdt.h) == 0 && fdto.Valid()
    requires Acceptable(fdt.v.tree, fdto.v.tree, delta)
    modifies fdto.buf, fdto`v
    ensures fdto.Valid()
    ensures match Prepared(fdt.v.tree, old(fdto.v.tree), delta)
      case Good(t) => ret == 0 && fdto.v.tree == t
      case Bad(e) => ret == e && ret != 0
  {
    hide Editable, Legible, InPlace, Adjust, LocalReferences, FixAll, FineFixups, GoodFixups, FineSymbols, View.Ok;
    ret := AdjustLocalPhandles(fdto, delta);
    if ret != 0 { return; }
    ret := UpdateLocalReferences(fdto, delta);
    if ret != 0 { return; }
    ret := FixupPhandles(fdt, fdto);
  }

  /** The last two stages change the base. */
  method MergeInto(fdt: Blob, fdto: Blob) returns (ret: int)
    requires Overlay(fdt, fdto) && fdt.Valid() && fdt.buf.Length + 2 * fdto.buf.Length + 8 < TWO31
    requires GoodTargets(fdto.v.tree.kids) && GoodSymbols(fdto.v.tree)
    requires HasSymbols(fdto.v.tree) && MergeFrags(fdt.v.tree, fdto.v.tree.kids).Ok? ==>
      AllNameable(MergeFrags(fdt.v.tree, fdto.v.tree.kids).tree)
    modifies fdt.buf, fdt`h, fdt`v
    ensures fdt.Valid()
    ensures var m := MergeFrags(old(fdt.v.tree), fdto.v.tree.kids);
      && (ret == 0 ==> m.Ok? && UpdateSymbols(m.tree, fdto.v.tree) == Good(fdt.v.tree))
      && (ret != 0 && ret != -ERR_NOSPACE ==>
        m == Fail(ret) || (m.Ok? && UpdateSymbols(m.tree, fdto.v.tree) == Bad(ret)))
    ensures ret == MergeResult(LevelOf(old(fdt.h), old(fdt.v)), old(fdt.v.tree), fdto.v.tree)
  {
    hide Editable, Legible, MergeFrags, UpdateSymbols, FragsFill, UpdateFill, GoodPath, GoodSymbols, AllNameable,
      View.Ok;
    ret := OverlayMerge(fdt, fdto);
    if ret != 0 { return; }
    ret := OverlaySymbolUpdate(fdt, fdto);
  }

  const ERASED: u32 := 0xFFFF_FFFF

  /** `fdt_overlay_apply`. Afterwards the overlay's magic is erased; if any stage failed, so is the base's. */
  method OverlayApply(fdt: Blob, fdto: Blob) returns (ret: int, ghost delta: u32)
    requires fdt != fdto && fdt.buf != fdto.buf && fdt.Readable() && fdt.buf.Length + 2 * fdto.buf.Length + 8 < TWO31
    requires HeaderError(fdt.h) == 0 ==> fdt.Valid()
    requires HeaderError(fdto.h) == 0 ==> fdto.Valid()
    requires forall d: u32 :: Largest(fdt.v.tree, d) ==> Acceptable(fdt.v.tree, fdto.v.tree, d)
    modifies fdt, fdt.buf, fdto, fdto.buf
    ensures HeaderError(old(fdt.h)) != 0 ==>
      ret == HeaderError(old(fdt.h)) && fdt.h == old(fdt.h) && fdto.h == old(fdto.h)
    ensures HeaderError(old(fdt.h)) == 0 && HeaderError(old(fdto.h)) != 0 ==>
      ret == HeaderError(old(fdto.h)) && fdt.h == old(fdt.h) && fdto.h == old(fdto.h)
    ensures HeaderError(old(fdt.h)) == 0 && HeaderError(old(fdto.h)) == 0 ==>
      && Largest(old(fdt.v.tree), delta) && fdto.h.magic == ERASED && (ret != 0 ==> fdt.h.magic == ERASED)
      && (ret == 0 ==> fdt.Valid() && Applied(old(fdt.v.tree), old(fdto.v.tree), delta) == Good(fdt.v.tree))
      && (ret != 0 && ret != -ERR_NOSPACE ==> Applied(old(fdt.v.tree), old(fdto.v.tree), delta) == Bad(ret))
      && ret == ApplyResult(LevelOf(old(fdt.h), old(fdt.v)), old(fdt.v.tree), old(fdto.v.tree), delta)
      && (ret == 0 ==>
        && IsPrepared(old(fdt.v.tree), old(fdto.v.tree), fdto.v.tree)
        && IsApplied(old(fdt.v.tree), fdto.v.tree, fdt.v.tree))
  {
    hide Editable, Legible, MergeFrags, UpdateSymbols, GoodPath, GoodSymbols, AllNameable, View.Ok, Prepared, Phandle,
      Whole, MergeResult;
    var d := GetMaxPhandle(fdt);
    delta := d;
    assert Largest(fdt.v.tree, d);
    ret := HeaderError(fdt.h);
    if ret != 0 { return; }
    ret := HeaderError(fdto.h);
    if ret != 0 { return; }
    ret := Prepare(fdt, fdto, d);
    if ret == 0 {
      ValidOk(fdto);
      ret := MergeInto(fdt, fdto);
    }
    fdto.h := fdto.h.(magic := ERASED);
    if ret != 0 { fdt.h := fdt.h.(magic := ERASED); }
  }

  /** What is asked of the two blobs, so that paths can be followed. */
  ghost predicate Ready(fdt: Blob, fdto: Blob)
    reads fdt, fdt.buf, fdto, fdto.buf
  {
    && fdt != fdto && fdt.buf != fdto.buf && fdt.Valid() && fdto.Valid()
    && fdt.buf.Length + 2 * fdto.buf.Length + 8 < TWO31
    && forall d: u32 :: Largest(fdt.v.tree, d) ==> Acceptable(fdt.v.tree, fdto.v.tree, d)
  }

  /** What the path that was written for a symbol means in the tree that is left: `found` is the offset of the node
      that the overlay's node was merged into, exactly when no earlier sibling answers to a component of the path. */
  ghost predicate SymbolFound(base: Tree, ov: Tree, v: View, path: bytes, found: int, k: nat, js: IndexPath) {
    && LeadsBack(base, ov, v.tree, path, k, js)
    && var q := MergedNode(base, ov, k, js).p;
      && Has(v.tree, q) && |Comps(path)| == |q|
      && (v.NodeAt(found, At(Root(v), q)) <==> Clear(v.tree, q, Comps(path)))
      && (Unmistaken(base, ov, k, path) ==> v.NodeAt(found, At(Root(v), q)))
  }

  /** `fdt_overlay_apply`, then `fdt_path_offset` with the path that was written for a symbol. */
  method ApplyAndFind(fdt: Blob, fdto: Blob, path: bytes, ghost i: nat, ghost k: nat, ghost rel: bytes,
                      ghost js: IndexPath)
    returns (ret: int, found: int, ghost ov: Tree)
    requires Ready(fdt, fdto) && path != [] && path[0] == SLASH && NUL !in path && |path| < TWO31
    modifies fdt, fdt.buf, fdto, fdto.buf
    ensures ret == 0 ==> fdt.Valid() && IsPrepared(old(fdt.v.tree), old(fdto.v.tree), ov)
    ensures ret == 0 ==> IsApplied(old(fdt.v.tree), ov, fdt.v.tree)
    ensures ret == 0 && WrittenFor(old(fdt.v.tree), ov, i, k, rel, js, path) ==>
      SymbolFound(old(fdt.v.tree), ov, fdt.v, path, found, k, js)
  {
    hide Editable, Legible, Applied, GoodPath, GoodSymbols, View.Ok, View.NodeAt, Acceptable, Largest, WrittenFor,
      LeadsBack, Resolve, SymbolFound;
    ghost var base, ov0 := fdt.v.tree, fdto.v.tree;
    found, ov := -1, ov0;
    ValidOk(fdt);
    ValidOk(fdto);
    ghost var delta: u32;
    ret, delta := OverlayApply(fdt, fdto);
    if ret != 0 { return; }
    ValidOk(fdt);
    found := PathOffset(fdt, path);
    ov := fdto.v.tree;
    PreparedGood(base, ov0, ov);
    if WrittenFor(base, ov, i, k, rel, js, path) {
      FoundAsWritten(base, ov, fdt.v, path, found, i, k, rel, js);
    }
  }

  lemma FoundAsWritten(base: Tree, ov: Tree, v: View, path: bytes, found: int, i: nat, k: nat, rel: bytes,
                       js: IndexPath)
    requires v.Ok() && WrittenFor(base, ov, i, k, rel, js, path) && GoodSymbols(ov) && IsApplied(base, ov, v.tree)
    requires match Resolve(Root(v), path)
      case To(m) => v.NodeAt(found, m)
      case Missing => found < 0
    ensures SymbolFound(base, ov, v, path, found, k, js)
  {
    hide GoodSymbols, View.Ok, View.NodeAt, WrittenFor, Resolve, Unmistaken, MergedNode, MergeFrags, UpdateSymbols,
      LeadsBack;
    WrittenLeads(base, ov, v.tree, i, k, rel, js, path);
    LeadsHas(base, ov, v.tree, path, k, js);
    FoundThere(v, path, found, MergedNode(base, ov, k, js).p);
    if Unmistaken(base, ov, k, path) { SymbolUnmistaken(base, ov, v.tree, i, k, rel, js, path); }
  }

  /** The overlay as it is when its fragments are merged. */
  ghost predicate IsPrepared(base: Tree, ov0: Tree, ov: Tree) {
    exists d: u32 :: Largest(base, d) && Prepared(base, ov0, d) == Good(ov)
  }

  ghost predicate IsApplied(base: Tree, ov: Tree, u: Tree) {
    MergeFrags(base, ov.kids).Ok? && UpdateSymbols(MergeFrags(base, ov.kids).tree, ov) == Good(u)
  }

  lemma PreparedGood(base: Tree, ov0: Tree, ov: Tree)
    requires IsPrepared(base, ov0, ov) && forall d: u32 :: Largest(base, d) ==> Acceptable(base, ov0, d)
    ensures GoodSymbols(ov)
  {
    hide Prepared, GoodSymbols, Largest, MergeFrags, UpdateSymbols;
  }

  lemma LeadsHas(base: Tree, ov: Tree, u: Tree, w: bytes, k: nat, js: IndexPath)
    requires LeadsBack(base, ov, u, w, k, js)
    ensures Merges(base, ov, k, js)
    ensures var q := MergedNode(base, ov, k, js).p;
      && Has(u, q) && |Comps(w)| == |q|
      && (Resolve(Loc(Top, u), w) == To(At(Loc(Top, u), q)) <==> Clear(u, q, Comps(w)))
  {
    hide MergedNode, Resolve, Clear, Comps;
  }

  /** The prepared overlay is a function of the two trees: there is one largest phandle. */
  lemma PreparedOnce(base: Tree, ov0: Tree, a: Tree, b: Tree)
    requires IsPrepared(base, ov0, a) && IsPrepared(base, ov0, b)
    ensures a == b
  {
    hide Prepared, Largest;
    var d: u32 :| Largest(base, d) && Prepared(base, ov0, d) == Good(a);
    var e: u32 :| Largest(base, e) && Prepared(base, ov0, e) == Good(b);
    LargestOnce(base, d, e);
  }

  /** An offset that was looked up by a path is that of a node exactly when the path leads to it. */
  lemma FoundThere(v: View, path: bytes, found: int, q: IndexPath)
    requires v.Ok() && Has(v.tree, q)
    requires match Resolve(Root(v), path)
      case To(m) => v.NodeAt(found, m)
      case Missing => found < 0
    ensures v.NodeAt(found, At(Root(v), q)) <==> Resolve(Root(v), path) == To(At(Root(v), q))
  {
    hide View.Ok, View.NodeAt, Resolve, NodeCheck;
    var l := At(Root(v), q);
    if v.NodeAt(found, l) {
      NodeAtCheck(v, found, l);
      OffsetRank(v, found, l, found, Resolve(Root(v), path).l);
    }
  }

  /** No phandle of the renumbered overlay is a phandle of the base. */
  lemma NewPhandlesAreNew(base: Tree, ov: Tree, delta: u32, p: IndexPath, m: Loc)
    requires Bounded(base, delta) && Adjust(ov, delta).Good? && Has(ov, p) && Phandle(Below(ov, p).props) != 0
    requires Whole(m) == base
    ensures var t := Adjust(ov, delta).value;
      && Has(t, p) && Phandle(Below(t, p).props) == Phandle(Below(ov, p).props) + delta
      && Phandle(Below(t, p).props) != NO_PHANDLE && Phandle(Below(t, p).props) != Phandle(m.node.props)
  {
    hide Adjust, Phandle, Has, Below, AdjustProps, HasPhandle, Whole;
    AdjustAt(ov, delta, p);
    NoPhandle(Below(ov, p).props);
    AdjustPropsGet(Below(ov, p).props, delta, []);
  }
}
