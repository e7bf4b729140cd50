/** What renumbering the phandles of an overlay means for its tree. */
module Renumber {
  import opened Bytes
  import opened CString
  import opened Trees
  import opened Lexer
  import opened FdtRo
  import opened FdtRoPhandle
  import opened IndexPaths

  datatype Result<T> = Good(value: T) | Bad(err: int)

  /** `overlay_phandle_add_offset`, for the properties of a node: a missing property is no error for its callers. */
  function AddOffset(ps: seq<Prop>, name: bytes, delta: u32): Result<seq<Prop>> {
    var q := FindProp(ps, name, 0);
    if q == |ps| then Good(ps)
    else if |ps[q].value| != 4 then Bad(-ERR_BADPHANDLE)
    else if Cell(ps[q].value) + delta >= NO_PHANDLE then Bad(-ERR_NOPHANDLES)
    else Good(ps[q := Prop(name, Word(Cell(ps[q].value) + delta))])
  }

  function AdjustProps(ps: seq<Prop>, delta: u32): Result<seq<Prop>> {
    match AddOffset(ps, PHANDLE, delta)
    case Bad(e) => Bad(e)
    case Good(ps') => AddOffset(ps', LINUX_PHANDLE, delta)
  }

  /** Every phandle of a subtree moved up. */
  function Adjust(t: Tree, delta: u32): Result<Tree>
    decreases t, 0
  {
    match AdjustProps(t.props, delta)
    case Bad(e) => Bad(e)
    case Good(ps) =>
      match AdjustKids([], t.kids, delta)
      case Bad(e) => Bad(e)
      case Good(ks) => Good(Node(t.name, ps, ks))
  }

  function AdjustKids(done: seq<Tree>, ks: seq<Tree>, delta: u32): Result<seq<Tree>>
    decreases ks
  {
    if ks == [] then Good(done)
    else
      match Adjust(ks[0], delta)
      case Bad(e) => Bad(e)
      case Good(t) => AdjustKids(done + [t], ks[1..], delta)
  }

  lemma AddOffsetShape(ps: seq<Prop>, name: bytes, delta: u32)
    ensures var r := AddOffset(ps, name, delta);
      r.Good? ==> |r.value| == |ps| && forall i :: 0 <= i < |ps| ==> r.value[i].name == ps[i].name
  {
    hide Cell, Word;
  }

  lemma {:induction false} AdjustShape(t: Tree, delta: u32)
    ensures Adjust(t, delta).Good? ==> SameShape(t, Adjust(t, delta).value)
    decreases t, 0
  {
    hide AddOffset;
    AddOffsetShape(t.props, PHANDLE, delta);
    if AddOffset(t.props, PHANDLE, delta).Good? {
      AddOffsetShape(AddOffset(t.props, PHANDLE, delta).value, LINUX_PHANDLE, delta);
    }
    AdjustKidsShape([], t.kids, delta);
  }

  /** The adjusted children, one by one. */
  lemma {:induction false} AdjustKidsShape(done: seq<Tree>, ks: seq<Tree>, delta: u32)
    ensures var r := AdjustKids(done, ks, delta);
      && (r.Good? ==> |r.value| == |done| + |ks| && r.value[..|done|] == done)
      && (r.Good? ==> forall i :: 0 <= i < |ks| ==>
        Adjust(ks[i], delta) == Good(r.value[|done| + i]) && SameShape(ks[i], r.value[|done| + i]))
    decreases ks
  {
    hide SameShape, AdjustProps;
    if ks != [] && Adjust(ks[0], delta).Good? {
      var t := Adjust(ks[0], delta).value;
      AdjustShape(ks[0], delta);
      AdjustKidsShape(done + [t], ks[1..], delta);
      var r := AdjustKids(done + [t], ks[1..], delta);
      if r.Good? {
        assert r.value[|done|] == r.value[..|done| + 1][|done|] == t;
        assert r.value[..|done|] == r.value[..|done| + 1][..|done|];
        forall i | 0 <= i < |ks|
          ensures Adjust(ks[i], delta) == Good(r.value[|done| + i]) && SameShape(ks[i], r.value[|done| + i])
        {
          if i > 0 { assert ks[i] == ks[1..][i - 1]; }
        }
      }
    }
  }

  /** The cells of a fixup property. */
  function Cells(w: bytes): seq<u32> {
    seq(|w| / 4, i requires 0 <= i < |w| / 4 => Be32(w, 4 * i))
  }

  /** The cell at an offset of a value, moved up; the sum is a 32-bit sum. */
  function Bumped(value: bytes, off: nat, delta: u32): bytes
    requires off + 4 <= |value|
  {
    Written(value, off, Word(U32(Be32(value, off) + delta)))
  }

  /** The cells at some offsets of a value moved up, one after the other. */
  function UpdateCells(value: bytes, offs: seq<u32>, delta: u32): Result<bytes>
    decreases |offs|
  {
    if offs == [] then Good(value)
    else if offs[0] + 4 > |value| then Bad(-ERR_BADOVERLAY)
    else UpdateCells(Bumped(value, offs[0], delta), offs[1..], delta)
  }

  /** The references in the property that a fixup property names. */
  function UpdateProp(ps: seq<Prop>, f: Prop, delta: u32): Result<seq<Prop>> {
    var q := FindProp(ps, f.name, 0);
    if |f.value| % 4 != 0 || q == |ps| then Bad(-ERR_BADOVERLAY)
    else
      match UpdateCells(ps[q].value, Cells(f.value), delta)
      case Bad(e) => Bad(e)
      case Good(value) => Good(ps[q := Prop(f.name, value)])
  }

  function UpdateProps(ps: seq<Prop>, fs: seq<Prop>, delta: u32): Result<seq<Prop>>
    decreases |fs|
  {
    if fs == [] then Good(ps)
    else
      match UpdateProp(ps, fs[0], delta)
      case Bad(e) => Bad(e)
      case Good(ps') => UpdateProps(ps', fs[1..], delta)
  }

  /** The references in a subtree, following the tree of fixups. */
  function UpdateNode(t: Tree, fix: Tree, delta: u32): Result<Tree>
    decreases fix, 0
  {
    match UpdateProps(t.props, fix.props, delta)
    case Bad(e) => Bad(e)
    case Good(ps) =>
      match UpdateKids(t.kids, fix.kids, delta)
      case Bad(e) => Bad(e)
      case Good(ks) => Good(Node(t.name, ps, ks))
  }

  function UpdateKids(ks: seq<Tree>, fs: seq<Tree>, delta: u32): Result<seq<Tree>>
    decreases fs
  {
    if fs == [] then Good(ks)
    else
      match UpdateKid(ks, fs[0], delta)
      case Bad(e) => Bad(e)
      case Good(ks') => UpdateKids(ks', fs[1..], delta)
  }

  function UpdateKid(ks: seq<Tree>, f: Tree, delta: u32): Result<seq<Tree>>
    decreases f, 1
  {
    var i := FindKid(ks, f.name, 0);
    if i == |ks| then Bad(-ERR_BADOVERLAY)
    else
      match UpdateNode(ks[i], f, delta)
      case Bad(e) => Bad(e)
      case Good(n) => Good(ks[i := n])
  }

  /** Every fixup cell is small enough for a 32-bit sum with 4; the code would otherwise write outside the property. */
  predicate SmallCells(fix: Tree)
    decreases fix
  {
    && (forall q, i :: 0 <= q < |fix.props| && 0 <= i < |Cells(fix.props[q].value)| ==>
      Cells(fix.props[q].value)[i] < TWO32 - 4)
    && (forall j :: 0 <= j < |fix.kids| ==> SmallCells(fix.kids[j]))
  }

  /** Looking a property up depends on the names only. */
  lemma {:induction false} FindPropNames(ps: seq<Prop>, qs: seq<Prop>, name: bytes, i: nat)
    requires |ps| == |qs| && i <= |ps| && forall k :: 0 <= k < |ps| ==> ps[k].name == qs[k].name
    ensures FindProp(ps, name, i) == FindProp(qs, name, i)
    decreases |ps| - i
  {
    if i < |ps| && ps[i].name != name { FindPropNames(ps, qs, name, i + 1); }
  }

  lemma {:induction false} FindKidNames(ks: seq<Tree>, js: seq<Tree>, name: bytes, i: nat)
    requires |ks| == |js| && i <= |ks| && forall k :: 0 <= k < |ks| ==> ks[k].name == js[k].name
    ensures FindKid(ks, name, i) == FindKid(js, name, i)
    decreases |ks| - i
  {
    if i < |ks| && !Matches(ks[i].name, name) { FindKidNames(ks, js, name, i + 1); }
  }
}
