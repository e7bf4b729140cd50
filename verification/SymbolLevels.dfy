/** How full a blob gets when the symbols of an overlay are added to it. */
module SymbolLevels {
  import opened Bytes
  import opened Trees
  import opened FdtRo
  import opened FdtRw
  import opened FdtRwNodes
  import opened Levels
  import opened Lexer
  import FdtOverlayMerge
  import opened Merge
  import opened Renumber
  import opened Symbols

  /** The node that holds the symbols. */
  function EnsureFill(f: Level, b: Tree): Filling {
    if FindKid(b.kids, SYMBOLS, 0) < |b.kids| then Fits(f) else NodeFill(f, SYMBOLS)
  }

  /** One symbol: room for the path that is written, and two NULs. */
  function SymbolFill(f: Level, b: Tree, s: nat, ov: Tree, p: Prop): Filling
    requires s < |b.kids|
  {
    match ParseSymbol(p.value)
    case Not(_) => Fits(f)
    case Inside(name, rel) =>
      match FragmentOf(ov, name)
      case Bad(_) => Fits(f)
      case Good(frag) =>
        match TargetOf(b, frag)
        case Miss(_) => Fits(f)
        case Hit(l) => SetFill(f, b.kids[s].props, p.name, |SymbolPath(TargetText(frag, l), rel)| + 2)
  }

  function SymbolsFill(f: Level, b: Tree, s: nat, ov: Tree, ps: seq<Prop>): Filling
    requires s < |b.kids|
    decreases |ps|
  {
    if ps == [] then Fits(f)
    else
      match SymbolFill(f, b, s, ov, ps[0])
      case Bursts(g) => Bursts(g)
      case Fits(g) =>
        match AddSymbol(b, s, ov, ps[0])
        case Bad(_) => Fits(g)
        case Good(b') => if s < |b'.kids| then SymbolsFill(g, b', s, ov, ps[1..]) else Fits(g)
  }

  /** All symbols of an overlay, up to the first that does not fit or is not well formed. */
  function UpdateFill(f: Level, b: Tree, ov: Tree): Filling {
    if !HasSymbols(ov) then Fits(f)
    else
      match EnsureFill(f, b)
      case Bursts(g) => Bursts(g)
      case Fits(g) =>
        var b' := Node(b.name, b.props, FdtOverlayMerge.WithKid(b.kids, SYMBOLS));
        FdtOverlayMerge.WithKidFinds(b.kids, SYMBOLS);
        SymbolsFill(g, b', FindKid(b'.kids, SYMBOLS, 0), ov, ov.kids[FindKid(ov.kids, SYMBOLS, 0)].props)
  }

  /** What adding symbols returns: the first failure, be it a lack of room or a symbol that cannot be added. */
  predicate Updated(err: int, t: Tree, l: Level, fill: Filling, m: Result<Tree>) {
    l == fill.l &&
    match fill
    case Bursts(_) => err == -ERR_NOSPACE
    case Fits(_) =>
      match m
      case Good(u) => err == 0 && t == u
      case Bad(e) => err == e
  }

  /** One symbol and the rest. */
  lemma SymbolsFillStep(f: Level, b: Tree, s: nat, ov: Tree, ps: seq<Prop>, r: int, t: Tree, l: Level)
    requires s < |b.kids| && ps != []
    requires Updated(r, t, l, SymbolFill(f, b, s, ov, ps[0]), AddSymbol(b, s, ov, ps[0]))
    requires r == 0 ==> AddSymbol(b, s, ov, ps[0]) == Good(t) && s < |t.kids|
    ensures r == 0 ==>
      && SymbolsFill(f, b, s, ov, ps) == SymbolsFill(l, t, s, ov, ps[1..])
      && AddSymbols(b, s, ov, ps) == AddSymbols(t, s, ov, ps[1..])
    ensures r != 0 ==> Updated(r, t, l, SymbolsFill(f, b, s, ov, ps), AddSymbols(b, s, ov, ps))
  {
    hide AddSymbol, SymbolFill;
  }

  lemma NoSymbols(f: Level, b: Tree, s: nat, ov: Tree)
    requires s < |b.kids|
    ensures SymbolsFill(f, b, s, ov, []) == Fits(f) && AddSymbols(b, s, ov, []) == Good(b)
  {
  }
}
