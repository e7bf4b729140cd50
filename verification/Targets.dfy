/** Which node the target of a fragment means. */
module Targets {
  import opened Bytes
  import opened Strings
  import opened Trees
  import opened Lexer
  import opened Walk
  import opened Preorder
  import opened Edits
  import opened FdtRo
  import opened FdtRoPath
  import opened FdtRoPhandle
  import opened FdtRw
  import opened Formats
  import opened Merge
  import opened Symbols
  import opened SymbolPaths
  import opened FdtOverlaySymbols

  /** `m` opens before `l` does, in preorder: fewer tags stand before it. */
  predicate Earlier(m: Loc, l: Loc) {
    |Pre(m.ctx)| < |Pre(l.ctx)|
  }

  lemma EarlierIs(m: Loc, l: Loc)
    requires Whole(m) == Whole(l)
    ensures Earlier(m, l) <==> |From(m)| > |From(l)|
  {
    hide Pre, From, Flatten, Whole;
    PreFrom(m);
    PreFrom(l);
  }

  /** The node of the tree that has the phandle and opens first. */
  ghost predicate FirstWith(t: Tree, ph: u32, l: Loc) {
    && Whole(l) == t && Phandle(l.node.props) == ph
    && forall m: Loc :: Whole(m) == t && Phandle(m.node.props) == ph ==> !Earlier(m, l)
  }

  /** A phandle means the first node in preorder that has it, and nothing exactly when no node has it. */
  lemma PhandleMeans(t: Tree, ph: u32, l: Loc)
    ensures ByPhandle(t, ph) == Hit(l) <==> FirstWith(t, ph, l)
    ensures ByPhandle(t, ph) == Miss(-ERR_NOTFOUND) <==> forall m: Loc :: Whole(m) == t ==> Phandle(m.node.props) != ph
    ensures ByPhandle(t, ph).Miss? ==> ByPhandle(t, ph) == Miss(-ERR_NOTFOUND)
  {
    hide Locs, Phandle, Whole, Earlier;
    var ls := Locs(Loc(Top, t));
    var k := FirstPhandle(ls, ph, 0);
    if k < |ls| {
      InTree(t, ls[k]);
      forall m: Loc | Whole(m) == t && Phandle(m.node.props) == ph ensures !Earlier(m, ls[k]) && m in ls {
        AllLocs(t, m);
        var i :| 0 <= i < |ls| && ls[i] == m;
        InOrder(t, k, i);
      }
      if FirstWith(t, ph, l) {
        AllLocs(t, l);
        var j :| 0 <= j < |ls| && ls[j] == l;
        if k < j { LaterIs(t, k, j); }
      }
    } else {
      forall m: Loc | Whole(m) == t ensures Phandle(m.node.props) != ph { AllLocs(t, m); }
    }
  }

  lemma InTree(t: Tree, m: Loc)
    requires m in Locs(Loc(Top, t))
    ensures Whole(m) == t
  {
    hide Locs, Whole;
    AllLocs(t, m);
  }

  lemma LaterIs(t: Tree, i: nat, j: nat)
    requires i < j < |Locs(Loc(Top, t))|
    ensures Earlier(Locs(Loc(Top, t))[i], Locs(Loc(Top, t))[j])
  {
    hide Locs, Whole, Earlier, Chained, Leave;
    var r, ls := Loc(Top, t), Locs(Loc(Top, t));
    WalkLocs(r, 0, false, 0);
    LaterShorter(ls, 0, false, 0, Leave(r, false, Rel(r, 0, false, 0)), i, j);
    InTree(t, ls[i]);
    InTree(t, ls[j]);
    EarlierIs(ls[i], ls[j]);
  }

  lemma InOrder(t: Tree, k: nat, i: nat)
    requires k <= i < |Locs(Loc(Top, t))|
    ensures !Earlier(Locs(Loc(Top, t))[i], Locs(Loc(Top, t))[k])
  {
    hide Locs;
    if k < i { LaterIs(t, k, i); }
  }

  /** Property `q` is the first of its name. */
  predicate IsFirst(ps: seq<Prop>, q: nat, name: bytes) {
    q < |ps| && ps[q].name == name && forall i :: 0 <= i < q ==> ps[i].name != name
  }

  predicate IsMissing(ps: seq<Prop>, name: bytes) {
    forall i :: 0 <= i < |ps| ==> ps[i].name != name
  }

  lemma FirstIs(ps: seq<Prop>, q: nat, name: bytes)
    ensures IsFirst(ps, q, name) ==> FindProp(ps, name, 0) == q && Get(ps, name) == Some(ps[q].value)
    ensures IsMissing(ps, name) ==> Get(ps, name) == None
  {
    if IsFirst(ps, q, name) { FindPropIs(ps, name, 0, q); }
    if IsMissing(ps, name) { FindPropNone(ps, name, 0); }
  }

  /** The phandle of a node: the first `phandle` property, if it has four bytes; else the first `linux,phandle`, if that
      has; else 0. */
  lemma PhandleIs(ps: seq<Prop>, q: nat)
    ensures IsFirst(ps, q, PHANDLE) && |ps[q].value| == 4 ==> Phandle(ps) == Cell(ps[q].value)
    ensures (IsMissing(ps, PHANDLE) || exists i: nat :: IsFirst(ps, i, PHANDLE) && |ps[i].value| != 4) ==>
      && (IsFirst(ps, q, LINUX_PHANDLE) && |ps[q].value| == 4 ==> Phandle(ps) == Cell(ps[q].value))
      && (IsFirst(ps, q, LINUX_PHANDLE) && |ps[q].value| != 4 ==> Phandle(ps) == 0)
      && (IsMissing(ps, LINUX_PHANDLE) ==> Phandle(ps) == 0)
  {
    hide Cell, FindProp;
    FirstIs(ps, q, PHANDLE);
    FirstIs(ps, q, LINUX_PHANDLE);
    if i: nat :| IsFirst(ps, i, PHANDLE) && |ps[i].value| != 4 { FirstIs(ps, i, PHANDLE); }
    GetNone(ps, PHANDLE);
    GetNone(ps, LINUX_PHANDLE);
  }

  lemma GetNone(ps: seq<Prop>, name: bytes)
    ensures Get(ps, name) == None <==> FindProp(ps, name, 0) == |ps|
  {
  }

  /** A target phandle means the first node in preorder that has it. */
  lemma TargetByPhandle(base: Tree, frag: Tree, q: nat, ph: u32, l: Loc)
    requires IsFirst(frag.props, q, TARGET) && frag.props[q].value == Word(ph) && 0 < ph < 0xffff_ffff
    ensures TargetOf(base, frag) == Hit(l) <==> FirstWith(base, ph, l)
    ensures TargetOf(base, frag) == Miss(-ERR_NOTFOUND) <==>
      forall m: Loc :: Whole(m) == base ==> Phandle(m.node.props) != ph
    ensures TargetOf(base, frag).Miss? ==> TargetOf(base, frag) == Miss(-ERR_NOTFOUND)
  {
    hide Phandle, Whole, Word, Cell, ByPhandle, FirstWith;
    FirstIs(frag.props, q, TARGET);
    CellOfWord(ph);
    PhandleMeans(base, ph, l);
  }

  /** A target that is no phandle is refused. */
  lemma TargetMalformed(base: Tree, frag: Tree, q: nat)
    requires IsFirst(frag.props, q, TARGET) && (|frag.props[q].value| != 4 || frag.props[q].value == Word(0xffff_ffff))
    ensures TargetOf(base, frag) == Miss(-ERR_BADPHANDLE)
  {
    hide Word, Cell, ByPhandle, Resolve;
    FirstIs(frag.props, q, TARGET);
    CellOfWord(0xffff_ffff);
  }

  /** A target path counts only when there is no target phandle, or it is 0. */
  lemma TargetByPath(base: Tree, frag: Tree, q: nat, p: nat, text: bytes, l: Loc)
    requires IsMissing(frag.props, TARGET) || (IsFirst(frag.props, q, TARGET) && frag.props[q].value == Word(0))
    requires NUL !in text
    ensures IsFirst(frag.props, p, TARGET_PATH) && text + [NUL] <= frag.props[p].value ==>
      TargetOf(base, frag) ==
        match Resolve(Loc(Top, base), text) case To(l) => Hit(l) case Missing => Miss(-ERR_NOTFOUND)
    ensures IsMissing(frag.props, TARGET_PATH) ==> TargetOf(base, frag) == Miss(-ERR_BADOVERLAY)
  {
    hide Word, Cell, ByPhandle, Resolve, StrAt;
    FirstIs(frag.props, q, TARGET);
    FirstIs(frag.props, p, TARGET_PATH);
    CellOfWord(0);
    if IsFirst(frag.props, p, TARGET_PATH) && text + [NUL] <= frag.props[p].value {
      OccursIsStrAt(frag.props[p].value, 0, text);
    }
  }

  /** The path that is written for node `rel` of a fragment: the target path as the fragment spells it, or as the tree
      prints the target that it names by phandle, a slash, and `rel`; the target `/` adds nothing. */
  lemma WrittenPathIs(b: Tree, frag: Tree, rel: bytes, l: Loc, p: nat, text: bytes)
    requires TargetOf(b, frag) == Hit(l) && NUL !in text && Nameable(l)
    ensures TargetPhandle(frag.props) == 0 && SpelledAs(frag.props, p, text) ==>
      WrittenPath(b, frag, rel) == (if |text| > 1 then text else []) + Ascii("/") + rel
    ensures TargetPhandle(frag.props) != 0 ==>
      WrittenPath(b, frag, rel) == (if l.ctx.In? then Printed(l) else []) + Ascii("/") + rel
  {
    hide TargetOf, StrAt, TargetPhandle, Printed, Nameable;
    assert Ascii("/") == [SLASH];
    FirstIs(frag.props, p, TARGET_PATH);
    if IsFirst(frag.props, p, TARGET_PATH) && text + [NUL] <= frag.props[p].value {
      OccursIsStrAt(frag.props[p].value, 0, text);
    }
    PrintedLength(l);
    PrintedShort(l);
  }

  /** The first target path is the text and its NUL. */
  predicate SpelledAs(ps: seq<Prop>, p: nat, text: bytes) {
    IsFirst(ps, p, TARGET_PATH) && text + [NUL] <= ps[p].value
  }

  lemma PrintedShort(l: Loc)
    requires Nameable(l)
    ensures |Printed(l)| > 1 <==> l.ctx.In?
  {
    PrintedPath(l);
    if l.ctx.In? { PathStarts(l); }
  }
}
