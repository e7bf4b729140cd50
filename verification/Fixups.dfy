/** What resolving the references of an overlay into its base means. */
module Fixups {
  import opened Bytes
  import opened Strings
  import opened CString
  import opened Trees
  import opened Walk
  import opened Lexer
  import opened FdtRo
  import opened FdtRoPath
  import opened FdtRoPhandle
  import opened IndexPaths
  import opened Merge
  import opened Renumber
  import opened Symbols

  const FIXUPS: bytes := [95, 95, 102, 105, 120, 117, 112, 115, 95, 95]

  predicate IsDigit(b: byte) { 48 <= b <= 57 }

  function Digit(b: byte): nat { if IsDigit(b) then b as int - 48 else 0 }

  /** The number that decimal digits write; `strtoul` saturates. */
  function Decimal(s: bytes): (w: u32)
    decreases |s|
  {
    if s == [] then 0 else Min(Decimal(s[..|s| - 1]) * 10 + Digit(s[|s| - 1]), TWO32 - 1)
  }

  /** The first colon, or the length. */
  function ColonAt(s: bytes): (q: nat)
    ensures q <= |s| && (q < |s| ==> s[q] == COLON)
  {
    if s == [] || s[0] == COLON then 0 else 1 + ColonAt(s[1..])
  }

  /** One fixup, `path:property:offset`. */
  datatype Fixup = Entry(path: bytes, name: bytes, off: u32) | Broken

  function ParseFixup(s: bytes): Fixup {
    var i := ColonAt(s);
    if i == |s| || i == |s| - 1 then Broken
    else
      var rest := s[i + 1..];
      var j := ColonAt(rest);
      if j == |rest| || j == 0 then Broken
      else
        var digits := rest[j + 1..];
        if digits == [] || exists k :: 0 <= k < |digits| && !IsDigit(digits[k]) then Broken
        else Entry(s[..i], rest[..j], Decimal(digits))
  }

  /** Where a path leads, by child indices. */
  datatype Way = Got(p: IndexPath) | Lost

  function Follow(t: Tree, names: bytes): Way
    decreases |names|
  {
    if names == [] then Got([])
    else if names[0] == SLASH then Follow(t, names[1..])
    else
      var q := SlashAt(names);
      var i := FindKid(t.kids, names[..q], 0);
      if i == |t.kids| then Lost
      else match Follow(t.kids[i], names[q..]) case Lost => Lost case Got(p) => Got([i] + p)
  }

  lemma {:induction false} FollowIs(l: Loc, names: bytes)
    ensures match Follow(l.node, names)
      case Lost => Resolve(l, names) == Missing
      case Got(p) => Has(l.node, p) && Resolve(l, names) == To(At(l, p))
    decreases |names|
  {
    if names != [] {
      if names[0] == SLASH {
        FollowIs(l, names[1..]);
      } else {
        var q := SlashAt(names);
        var i := FindKid(l.node.kids, names[..q], 0);
        if i < |l.node.kids| {
          FollowIs(Child(l, i), names[q..]);
          if Follow(l.node.kids[i], names[q..]).Got? {
            var p := Follow(l.node.kids[i], names[q..]).p;
            assert ([i] + p)[1..] == p;
          }
        }
      }
    }
  }

  /** Paths depend on names only. */
  lemma {:induction false} FollowShape(t: Tree, u: Tree, names: bytes)
    requires SameShape(t, u)
    ensures Follow(t, names) == Follow(u, names)
    decreases |names|
  {
    if names != [] {
      if names[0] == SLASH {
        FollowShape(t, u, names[1..]);
      } else {
        var q := SlashAt(names);
        forall k | 0 <= k < |t.kids| ensures t.kids[k].name == u.kids[k].name {
          assert SameShape(t.kids[k], u.kids[k]);
        }
        FindKidNames(t.kids, u.kids, names[..q], 0);
        var i := FindKid(t.kids, names[..q], 0);
        if i < |t.kids| { FollowShape(t.kids[i], u.kids[i], names[q..]); }
      }
    }
  }

  /** The phandle of the base node that a label names. */
  function LabelPhandle(base: Tree, symbol: bytes): Result<u32> {
    var s := FindKid(base.kids, SYMBOLS, 0);
    if s == |base.kids| then Bad(-ERR_NOTFOUND)
    else
      match Get(base.kids[s].props, symbol)
      case None => Bad(-ERR_NOTFOUND)
      case Some(v) =>
        match Resolve(Loc(Top, base), StrAt(v, 0))
        case Missing => Bad(-ERR_NOTFOUND)
        case To(m) => if Phandle(m.node.props) == 0 then Bad(-ERR_NOTFOUND) else Good(Phandle(m.node.props))
  }

  /** `overlay_fixup_one_phandle`: one cell of the overlay set to the phandle of the labelled node. */
  function FixOne(base: Tree, ov: Tree, symbol: bytes, path: bytes, name: bytes, off: u32): Result<Tree> {
    match LabelPhandle(base, symbol)
    case Bad(e) => Bad(e)
    case Good(ph) =>
      match Follow(ov, path)
      case Lost => Bad(-ERR_BADOVERLAY)
      case Got(p) =>
        FollowHas(ov, path);
        var t := Below(ov, p);
        var q := FindProp(t.props, name, 0);
        if q == |t.props| then Bad(-ERR_NOTFOUND)
        else if |t.props[q].value| < off + 4 then Bad(-ERR_NOSPACE)
        else Good(Put(ov, p, Node(t.name, t.props[q := Prop(name, Written(t.props[q].value, off, Word(ph)))], t.kids)))
  }

  lemma FollowHas(t: Tree, names: bytes)
    ensures Follow(t, names).Got? ==> Has(t, Follow(t, names).p)
  {
    FollowIs(Loc(Top, t), names);
  }

  /** `overlay_fixup_phandle`: every fixup of one label. */
  function FixValue(base: Tree, ov: Tree, symbol: bytes, value: bytes): Result<Tree>
    decreases |value|
  {
    var j := NulAt(value, 0);
    if j == |value| then Bad(-ERR_BADOVERLAY)
    else
      match ParseFixup(value[..j])
      case Broken => Bad(-ERR_BADOVERLAY)
      case Entry(path, name, off) =>
        match FixOne(base, ov, symbol, path, name, off)
        case Bad(e) => Bad(e)
        case Good(ov') => if value[j + 1..] == [] then Good(ov') else FixValue(base, ov', symbol, value[j + 1..])
  }

  function FixProps(base: Tree, ov: Tree, ps: seq<Prop>): Result<Tree>
    decreases |ps|
  {
    if ps == [] then Good(ov)
    else
      match FixValue(base, ov, ps[0].name, ps[0].value)
      case Bad(e) => Bad(e)
      case Good(ov') => FixProps(base, ov', ps[1..])
  }

  /** `overlay_fixup_phandles`. */
  function FixAll(base: Tree, ov: Tree): Result<Tree> {
    var f := FindKid(ov.kids, FIXUPS, 0);
    if f == |ov.kids| then Good(ov) else FixProps(base, ov, ov.kids[f].props)
  }

  /** A fixup that can be followed: an absolute path that does not lead to the fixups themselves, and an offset that
      is far from a 32-bit wrap. */
  predicate Fine(t: Tree, f: nat, s: bytes) {
    match ParseFixup(s)
    case Broken => true
    case Entry(path, name, off) =>
      && path != [] && path[0] == SLASH && off < TWO32 - 4
      && match Follow(t, path) case Lost => true case Got(p) => p == [] || p[0] != f
  }

  predicate FineValue(t: Tree, f: nat, value: bytes)
    decreases |value|
  {
    var j := NulAt(value, 0);
    j == |value| || (Fine(t, f, value[..j]) && FineValue(t, f, value[j + 1..]))
  }

  lemma {:induction false} FineShape(t: Tree, u: Tree, f: nat, value: bytes)
    requires SameShape(t, u)
    ensures FineValue(t, f, value) <==> FineValue(u, f, value)
    decreases |value|
  {
    hide Follow, SameShape;
    var j := NulAt(value, 0);
    if j < |value| {
      if ParseFixup(value[..j]).Entry? { FollowShape(t, u, ParseFixup(value[..j]).path); }
      FineShape(t, u, f, value[j + 1..]);
    }
  }

  /** The fixups of an overlay can be followed. */
  predicate FineFixups(t: Tree) {
    var f := FindKid(t.kids, FIXUPS, 0);
    f < |t.kids| ==> forall k :: 0 <= k < |t.kids[f].props| ==> FineValue(t, f, t.kids[f].props[k].value)
  }

  /** Every symbol of the base is a terminated absolute path. */
  predicate FineSymbols(base: Tree) {
    var s := FindKid(base.kids, SYMBOLS, 0);
    s < |base.kids| ==>
      forall k :: 0 <= k < |base.kids[s].props| ==>
        HasStr(base.kids[s].props[k].value, 0) && base.kids[s].props[k].value[0] == SLASH
  }
}
