/** Renumbering an overlay keeps what its references point to. */
module References {
  import opened Bytes
  import opened CString
  import opened Trees
  import opened Walk
  import opened Preorder
  import opened Lexer
  import opened FdtRo
  import opened FdtRoPhandle
  import opened IndexPaths
  import opened Merge
  import opened Renumber

  const LOCAL_FIXUPS: bytes := [95, 95, 108, 111, 99, 97, 108, 95, 102, 105, 120, 117, 112, 115, 95, 95]

  /** `overlay_update_local_references`, on trees. */
  function LocalReferences(t: Tree, delta: u32): Result<Tree> {
    var f := FindKid(t.kids, LOCAL_FIXUPS, 0);
    if f == |t.kids| then Good(t) else UpdateNode(t, t.kids[f], delta)
  }

  /** No two cells overlap, and each is inside the value. */
  predicate Separate(offs: seq<u32>, size: nat) {
    && (forall i :: 0 <= i < |offs| ==> offs[i] + 4 <= size)
    && (forall i, j :: 0 <= i < j < |offs| ==>
      offs[i] as int + 4 <= offs[j] as int || offs[j] as int + 4 <= offs[i] as int)
  }

  lemma BumpedBytes(value: bytes, off: nat, delta: u32, x: nat)
    requires off + 4 <= |value|
    ensures |Bumped(value, off, delta)| == |value|
    ensures Be32(Bumped(value, off, delta), off) == U32(Be32(value, off) + delta)
    ensures x < |value| && !(off <= x < off + 4) ==> Bumped(value, off, delta)[x] == value[x]
    ensures x + 4 <= |value| && (x + 4 <= off || off + 4 <= x) ==> Be32(Bumped(value, off, delta), x) == Be32(value, x)
  {
    hide Cell, Word, U32;
    var w := Word(U32(Be32(value, off) + delta));
    var r := Bumped(value, off, delta);
    WrittenParts(value, off, w);
    CellOfWord(U32(Be32(value, off) + delta));
    if x + 4 <= |value| && (x + 4 <= off || off + 4 <= x) { assert r[x..x + 4] == value[x..x + 4]; }
  }

  /** A byte outside the listed cells is not changed. */
  lemma {:induction false} CellsElsewhere(value: bytes, offs: seq<u32>, delta: u32, x: nat)
    requires UpdateCells(value, offs, delta).Good? && x < |value|
    requires forall i :: 0 <= i < |offs| ==> !(offs[i] as int <= x < offs[i] as int + 4)
    ensures |UpdateCells(value, offs, delta).value| == |value| && UpdateCells(value, offs, delta).value[x] == value[x]
    decreases |offs|
  {
    hide Bumped;
    if offs != [] {
      BumpedBytes(value, offs[0], delta, x);
      CellsElsewhere(Bumped(value, offs[0], delta), offs[1..], delta, x);
    }
  }

  /** Every listed cell moves up once. */
  lemma {:induction false} CellsListed(value: bytes, offs: seq<u32>, delta: u32, k: nat)
    requires Separate(offs, |value|) && k < |offs|
    ensures var r := UpdateCells(value, offs, delta);
      r.Good? && |r.value| == |value| && Be32(r.value, offs[k]) == U32(Be32(value, offs[k]) + delta)
    decreases |offs|
  {
    hide Bumped, Cell, U32;
    var v := Bumped(value, offs[0], delta);
    BumpedBytes(value, offs[0], delta, offs[k]);
    if k > 0 {
      assert offs[1..][k - 1] == offs[k];
      CellsListed(v, offs[1..], delta, k - 1);
    } else {
      CellUntouched(v, offs[1..], delta, offs[0]);
    }
  }

  lemma {:induction false} CellUntouched(value: bytes, offs: seq<u32>, delta: u32, x: nat)
    requires Separate(offs, |value|) && x + 4 <= |value|
    requires forall i :: 0 <= i < |offs| ==> x + 4 <= offs[i] as int || offs[i] as int + 4 <= x
    ensures var r := UpdateCells(value, offs, delta);
      r.Good? && |r.value| == |value| && Be32(r.value, x) == Be32(value, x)
    decreases |offs|
  {
    hide Bumped, Cell;
    if offs != [] {
      BumpedBytes(value, offs[0], delta, x);
      CellUntouched(Bumped(value, offs[0], delta), offs[1..], delta, x);
    }
  }

  lemma {:induction false} CellsInTwo(value: bytes, a: seq<u32>, b: seq<u32>, delta: u32)
    ensures UpdateCells(value, a + b, delta) ==
      match UpdateCells(value, a, delta) case Bad(e) => Bad(e) case Good(v) => UpdateCells(v, b, delta)
    decreases |a|
  {
    hide Bumped;
    if a == [] {
      assert a + b == b;
    } else {
      assert (a + b)[0] == a[0] && (a + b)[1..] == a[1..] + b;
      if a[0] + 4 <= |value| { CellsInTwo(Bumped(value, a[0], delta), a[1..], b, delta); }
    }
  }

  /** The offsets that some fixup properties list for a property. */
  function Hits(fs: seq<Prop>, name: bytes): seq<u32> {
    if fs == [] then [] else (if fs[0].name == name then Cells(fs[0].value) else []) + Hits(fs[1..], name)
  }

  /** The offsets that a tree of fixups lists for a property of the node at a path. */
  function RefsAt(t: Tree, fix: Tree, p: IndexPath, name: bytes): seq<u32>
    requires Has(t, p)
    decreases fix, 0
  {
    if p == [] then Hits(fix.props, name) else RefsIn(t.kids, fix.kids, p, name)
  }

  function RefsIn(ks: seq<Tree>, fs: seq<Tree>, p: IndexPath, name: bytes): seq<u32>
    requires p != [] && p[0] < |ks| && Has(ks[p[0]], p[1..])
    decreases fs
  {
    if fs == [] then []
    else (if FindKid(ks, fs[0].name, 0) == p[0]
      then RefsAt(ks[p[0]], fs[0], p[1..], name) else []) + RefsIn(ks, fs[1..], p, name)
  }

  /** A value with some cells moved up. */
  function MovedUp(value: Value, offs: seq<u32>, delta: u32): Result<Value> {
    match value
    case None => Good(None)
    case Some(v) =>
      match UpdateCells(v, offs, delta)
      case Bad(e) => Bad(e)
      case Good(w) => Good(Some(w))
  }

  lemma MovedInTwo(value: Value, a: seq<u32>, b: seq<u32>, delta: u32)
    ensures MovedUp(value, a + b, delta) == match MovedUp(value, a, delta) case Bad(e) => Bad(e)
      case Good(v) => MovedUp(v, b, delta)
    ensures MovedUp(value, [], delta) == Good(value)
  {
    hide UpdateCells;
    if value.Some? { CellsInTwo(value.value, a, b, delta); }
    NoCells(value, delta);
  }

  lemma NoCells(value: Value, delta: u32)
    ensures MovedUp(value, [], delta) == Good(value)
  {
  }

  lemma UpdatePropGet(ps: seq<Prop>, f: Prop, delta: u32, name: bytes)
    requires UpdateProp(ps, f, delta).Good?
    ensures MovedUp(Get(ps, name), if f.name == name then Cells(f.value) else [], delta)
      == Good(Get(UpdateProp(ps, f, delta).value, name))
    ensures var r := UpdateProp(ps, f, delta).value; |r| == |ps| && forall k :: 0 <= k < |ps| ==>
      r[k].name == ps[k].name
  {
    hide UpdateCells, FindProp, Cells;
    var r := UpdateProp(ps, f, delta).value;
    FindPropNames(ps, r, name, 0);
    NoCells(Get(ps, name), delta);
  }

  lemma {:induction false} UpdatePropsGet(ps: seq<Prop>, fs: seq<Prop>, delta: u32, name: bytes)
    requires UpdateProps(ps, fs, delta).Good?
    ensures MovedUp(Get(ps, name), Hits(fs, name), delta) == Good(Get(UpdateProps(ps, fs, delta).value, name))
    ensures var r := UpdateProps(ps, fs, delta).value; |r| == |ps| && forall k :: 0 <= k < |ps| ==>
      r[k].name == ps[k].name
    decreases |fs|
  {
    hide UpdateProp, MovedUp, Get, Cells;
    if fs == [] {
      NoCells(Get(ps, name), delta);
    } else {
      var qs := UpdateProp(ps, fs[0], delta).value;
      UpdatePropGet(ps, fs[0], delta, name);
      UpdatePropsGet(qs, fs[1..], delta, name);
      MovedInTwo(Get(ps, name), if fs[0].name == name then Cells(fs[0].value) else [], Hits(fs[1..], name), delta);
    }
  }

  /** Fixups look at names only. */
  lemma {:induction false} RefsShape(t: Tree, u: Tree, fix: Tree, p: IndexPath, name: bytes)
    requires SameShape(t, u) && Has(t, p)
    ensures Has(u, p) && RefsAt(t, fix, p, name) == RefsAt(u, fix, p, name)
    decreases fix, 0
  {
    ShapeHas(t, u, p);
    if p != [] { RefsInShape(t.kids, u.kids, fix.kids, p, name); }
  }

  lemma {:induction false} RefsInShape(ks: seq<Tree>, js: seq<Tree>, fs: seq<Tree>, p: IndexPath, name: bytes)
    requires |ks| == |js| && (forall i :: 0 <= i < |ks| ==> SameShape(ks[i], js[i]))
    requires p != [] && p[0] < |ks| && Has(ks[p[0]], p[1..])
    ensures Has(js[p[0]], p[1..]) && RefsIn(ks, fs, p, name) == RefsIn(js, fs, p, name)
    decreases fs
  {
    ShapeHas(ks[p[0]], js[p[0]], p[1..]);
    if fs != [] {
      assert forall i :: 0 <= i < |ks| ==> ks[i].name == js[i].name by {
        forall i | 0 <= i < |ks| ensures ks[i].name == js[i].name { assert SameShape(ks[i], js[i]); }
      }
      FindKidNames(ks, js, fs[0].name, 0);
      RefsShape(ks[p[0]], js[p[0]], fs[0], p[1..], name);
      RefsInShape(ks, js, fs[1..], p, name);
    }
  }

  /** Updating the references of a subtree changes exactly the listed cells of every property of every node in it. */
  lemma {:induction false} UpdateNodeGet(t: Tree, fix: Tree, delta: u32, p: IndexPath, name: bytes)
    requires UpdateNode(t, fix, delta).Good? && Has(t, p)
    ensures var u := UpdateNode(t, fix, delta).value;
      && SameShape(t, u) && Has(u, p)
      && MovedUp(Get(Below(t, p).props, name), RefsAt(t, fix, p, name), delta) == Good(Get(Below(u, p).props, name))
    decreases fix, 0
  {
    hide UpdateProps, UpdateKids, MovedUp, Get, Hits, RefsIn;
    var u := UpdateNode(t, fix, delta).value;
    UpdatePropsGet(t.props, fix.props, delta, name);
    UpdateKidsGet(t.kids, fix.kids, delta, p, name);
  }

  lemma {:induction false} UpdateKidsGet(ks: seq<Tree>, fs: seq<Tree>, delta: u32, p: IndexPath, name: bytes)
    requires UpdateKids(ks, fs, delta).Good?
    ensures var js := UpdateKids(ks, fs, delta).value;
      && |js| == |ks| && (forall i :: 0 <= i < |ks| ==> SameShape(ks[i], js[i]))
      && (p != [] && p[0] < |ks| && Has(ks[p[0]], p[1..]) ==>
        && Has(js[p[0]], p[1..])
        && MovedUp(Get(Below(ks[p[0]], p[1..]).props, name), RefsIn(ks, fs, p, name), delta)
            == Good(Get(Below(js[p[0]], p[1..]).props, name)))
    decreases fs
  {
    hide UpdateNode, MovedUp, Get, Hits, FindKid, RefsAt, SameShape, Has, Below;
    var into := p != [] && p[0] < |ks| && Has(ks[p[0]], p[1..]);
    if fs == [] {
      forall i | 0 <= i < |ks| ensures SameShape(ks[i], ks[i]) { ShapeSelf(ks[i]); }
      if into { NoCells(Get(Below(ks[p[0]], p[1..]).props, name), delta); }
    } else {
      var i := FindKid(ks, fs[0].name, 0);
      var n := UpdateNode(ks[i], fs[0], delta).value;
      var js := ks[i := n];
      OneShape(ks, i, n, fs[0], delta);
      UpdateKidsGet(js, fs[1..], delta, p, name);
      ShapesTwice(ks, js, UpdateKids(js, fs[1..], delta).value);
      if into { UpdateStepGet(ks, fs, delta, p, name, i, n); }
    }
  }

  lemma {:induction false} OneShape(ks: seq<Tree>, i: nat, n: Tree, f: Tree, delta: u32)
    requires i < |ks| && UpdateNode(ks[i], f, delta) == Good(n)
    ensures forall x :: 0 <= x < |ks| ==> SameShape(ks[x], ks[i := n][x])
    decreases f, 1
  {
    hide UpdateNode, MovedUp, Get, RefsAt, SameShape;
    UpdateNodeGet(ks[i], f, delta, [], []);
    forall x | 0 <= x < |ks| ensures SameShape(ks[x], ks[i := n][x]) { if x != i { ShapeSelf(ks[x]); } }
  }

  lemma ShapesTwice(a: seq<Tree>, b: seq<Tree>, c: seq<Tree>)
    requires |a| == |b| == |c| && (forall i :: 0 <= i < |a| ==> SameShape(a[i], b[i]))
    requires (forall i :: 0 <= i < |b| ==> SameShape(b[i], c[i]))
    ensures forall i :: 0 <= i < |a| ==> SameShape(a[i], c[i])
  {
    hide SameShape;
    forall i | 0 <= i < |a| ensures SameShape(a[i], c[i]) { ShapeTwice(a[i], b[i], c[i]); }
  }

  /** One fixup child, then the rest. */
  lemma {:induction false} UpdateStepGet(ks: seq<Tree>, fs: seq<Tree>, delta: u32, p: IndexPath, name: bytes, i: nat,
                                         n: Tree)
    requires fs != [] && i == FindKid(ks, fs[0].name, 0) < |ks| && UpdateNode(ks[i], fs[0], delta) == Good(n)
    requires p != [] && p[0] < |ks| && Has(ks[p[0]], p[1..])
    requires forall x :: 0 <= x < |ks| ==> SameShape(ks[x], ks[i := n][x])
    ensures Has(ks[i := n][p[0]], p[1..])
    ensures MovedUp(Get(Below(ks[i := n][p[0]], p[1..]).props, name), RefsIn(ks[i := n], fs[1..], p, name), delta)
      == MovedUp(Get(Below(ks[p[0]], p[1..]).props, name), RefsIn(ks, fs, p, name), delta)
    decreases fs[0], 2
  {
    hide UpdateNode, MovedUp, Get, Hits, FindKid, RefsAt, SameShape, Has, Below;
    var js := ks[i := n];
    ShapeHas(ks[p[0]], js[p[0]], p[1..]);
    RefsInShape(ks, js, fs[1..], p, name);
    var here := if i == p[0] then RefsAt(ks[p[0]], fs[0], p[1..], name) else [];
    var value := Get(Below(ks[p[0]], p[1..]).props, name);
    if i == p[0] { UpdateNodeGet(ks[i], fs[0], delta, p[1..], name); } else { NoCells(value, delta); }
    MovedInTwo(value, here, RefsIn(ks, fs[1..], p, name), delta);
  }

  /** The phandle of a node, from its property values. */
  lemma PhandleGet(ps: seq<Prop>)
    ensures HasCell(ps, PHANDLE) <==> Get(ps, PHANDLE).Some? && |Get(ps, PHANDLE).value| == 4
    ensures HasCell(ps, LINUX_PHANDLE) <==> Get(ps, LINUX_PHANDLE).Some? && |Get(ps, LINUX_PHANDLE).value| == 4
    ensures Phandle(ps) == if HasCell(ps, PHANDLE) then Cell(Get(ps, PHANDLE).value)
      else if HasCell(ps, LINUX_PHANDLE) then Cell(Get(ps, LINUX_PHANDLE).value) else 0
  {
    hide Cell, FindProp;
  }

  predicate HasPhandle(ps: seq<Prop>) { HasCell(ps, PHANDLE) || HasCell(ps, LINUX_PHANDLE) }

  lemma AddOffsetGet(ps: seq<Prop>, name: bytes, delta: u32, other: bytes)
    requires AddOffset(ps, name, delta).Good?
    ensures var qs := AddOffset(ps, name, delta).value;
      && (other != name ==> Get(qs, other) == Get(ps, other))
      && (Get(ps, name).None? ==> Get(qs, name).None?)
      && (Get(ps, name).Some? ==> |Get(ps, name).value| == 4 && Cell(Get(ps, name).value) + delta < NO_PHANDLE)
      && (Get(ps, name).Some? ==> Get(qs, name) == Some(Word(Cell(Get(ps, name).value) + delta)))
  {
    hide Cell, Word, FindProp;
    var qs := AddOffset(ps, name, delta).value;
    AddOffsetShape(ps, name, delta);
    FindPropNames(ps, qs, name, 0);
    FindPropNames(ps, qs, other, 0);
  }

  lemma NamesDiffer()
    ensures PHANDLE != LINUX_PHANDLE
  {
    assert |PHANDLE| != |LINUX_PHANDLE|;
  }

  /** Renumbering the properties of a node: a phandle moves up by `delta` and stays below all ones; other properties
      stay as they are. */
  lemma AdjustPropsGet(ps: seq<Prop>, delta: u32, name: bytes)
    requires AdjustProps(ps, delta).Good?
    ensures var qs := AdjustProps(ps, delta).value;
      && (name != PHANDLE && name != LINUX_PHANDLE ==> Get(qs, name) == Get(ps, name))
      && HasPhandle(qs) == HasPhandle(ps) && Phandle(qs) == (if HasPhandle(ps) then Phandle(ps) + delta else 0)
      && Phandle(qs) < NO_PHANDLE
  {
    hide Cell, Word, FindProp, AddOffset, Phandle, HasCell, Get;
    var p1 := AddOffset(ps, PHANDLE, delta).value;
    var qs := AddOffset(p1, LINUX_PHANDLE, delta).value;
    NamesDiffer();
    AddOffsetGet(ps, PHANDLE, delta, LINUX_PHANDLE);
    AddOffsetGet(ps, PHANDLE, delta, name);
    AddOffsetGet(p1, LINUX_PHANDLE, delta, PHANDLE);
    AddOffsetGet(p1, LINUX_PHANDLE, delta, name);
    PhandleGet(ps);
    PhandleGet(qs);
    if HasCell(ps, PHANDLE) { CellOfWord(Cell(Get(ps, PHANDLE).value) + delta); }
    if HasCell(ps, LINUX_PHANDLE) { CellOfWord(Cell(Get(ps, LINUX_PHANDLE).value) + delta); }
  }

  /** Renumbering a subtree renumbers the properties of every node in it. */
  lemma {:induction false} AdjustAt(t: Tree, delta: u32, p: IndexPath)
    requires Adjust(t, delta).Good? && Has(t, p)
    ensures var u := Adjust(t, delta).value;
      Has(u, p) && AdjustProps(Below(t, p).props, delta) == Good(Below(u, p).props)
    decreases |p|
  {
    hide AdjustProps;
    if p != [] {
      AdjustKidsShape([], t.kids, delta);
      AdjustAt(t.kids[p[0]], delta, p[1..]);
    }
  }

  /** The paths of all nodes, parents before children. */
  function PathList(t: Tree): seq<IndexPath>
    decreases t, |t.kids| + 1
  {
    [[]] + PathsFrom(t, 0)
  }

  function PathsFrom(t: Tree, i: nat): seq<IndexPath>
    requires i <= |t.kids|
    decreases t, |t.kids| - i
  {
    if i == |t.kids| then [] else Prefixed(i, PathList(t.kids[i])) + PathsFrom(t, i + 1)
  }

  function Prefixed(i: nat, ps: seq<IndexPath>): (r: seq<IndexPath>)
    ensures |r| == |ps|
  {
    seq(|ps|, k requires 0 <= k < |ps| => [i] + ps[k])
  }

  lemma {:induction false} LocsArePaths(l: Loc)
    ensures |Locs(l)| == |PathList(l.node)|
    ensures forall k :: 0 <= k < |Locs(l)| ==>
      Has(l.node, PathList(l.node)[k]) && Locs(l)[k] == At(l, PathList(l.node)[k])
    decreases l.node, |l.node.kids| + 1
  {
    LocsFromArePaths(l, 0);
  }

  lemma {:induction false} LocsFromArePaths(l: Loc, i: nat)
    requires i <= |l.node.kids|
    ensures |LocsFrom(l, i)| == |PathsFrom(l.node, i)|
    ensures forall k :: 0 <= k < |LocsFrom(l, i)| ==>
      Has(l.node, PathsFrom(l.node, i)[k]) && LocsFrom(l, i)[k] == At(l, PathsFrom(l.node, i)[k])
    decreases l.node, |l.node.kids| - i
  {
    if i < |l.node.kids| {
      hide Locs, PathList;
      LocsArePaths(Child(l, i));
      LocsFromArePaths(l, i + 1);
      var n := |Locs(Child(l, i))|;
      var ps, a := PathsFrom(l.node, i), Prefixed(i, PathList(l.node.kids[i]));
      assert ps == a + PathsFrom(l.node, i + 1);
      forall k | 0 <= k < |LocsFrom(l, i)|
        ensures Has(l.node, ps[k]) && LocsFrom(l, i)[k] == At(l, ps[k])
      {
        if k < n { assert ps[k] == [i] + PathList(l.node.kids[i])[k] && ps[k][1..] == PathList(l.node.kids[i])[k]; }
      }
    }
  }

  lemma {:induction false} PathListShape(t: Tree, u: Tree)
    requires SameShape(t, u)
    ensures PathList(t) == PathList(u)
    decreases t, |t.kids| + 1
  {
    PathsFromShape(t, u, 0);
  }

  lemma {:induction false} PathsFromShape(t: Tree, u: Tree, i: nat)
    requires SameShape(t, u) && i <= |t.kids|
    ensures |t.kids| == |u.kids| && PathsFrom(t, i) == PathsFrom(u, i)
    decreases t, |t.kids| - i
  {
    if i < |t.kids| {
      PathListShape(t.kids[i], u.kids[i]);
      PathsFromShape(t, u, i + 1);
    }
  }

  /** The index, in preorder, of the node that a reference `ph` points to. */
  function PointsTo(t: Tree, ph: u32): nat {
    FirstPhandle(Locs(Loc(Top, t)), ph, 0)
  }

  lemma {:induction false} FirstSame(a: seq<Loc>, b: seq<Loc>, x: u32, y: u32, i: nat)
    requires |a| == |b| && i <= |a|
    requires forall k :: 0 <= k < |a| ==> (Phandle(a[k].node.props) == x <==> Phandle(b[k].node.props) == y)
    ensures FirstPhandle(a, x, i) == FirstPhandle(b, y, i)
    decreases |a| - i
  {
    hide Phandle;
    if i < |a| && Phandle(a[i].node.props) != x { FirstSame(a, b, x, y, i + 1); }
  }

  /** The fixups list no cell of a phandle. */
  ghost predicate PhandlesUnlisted(t: Tree, fix: Tree) {
    forall p: IndexPath :: Has(t, p) ==> RefsAt(t, fix, p, PHANDLE) == [] && RefsAt(t, fix, p, LINUX_PHANDLE) == []
  }

  /** Renumbering and updating the references, one node at a time. */
  lemma RenumberedAt(t: Tree, delta: u32, t1: Tree, t2: Tree, p: IndexPath, name: bytes)
    requires Adjust(t, delta) == Good(t1) && LocalReferences(t1, delta) == Good(t2) && Has(t, p)
    requires FindKid(t1.kids, LOCAL_FIXUPS, 0) < |t1.kids|
    requires PhandlesUnlisted(t1, t1.kids[FindKid(t1.kids, LOCAL_FIXUPS, 0)])
    ensures SameShape(t, t1) && SameShape(t1, t2) && Has(t1, p) && Has(t2, p)
    ensures var a, c := Below(t, p).props, Below(t2, p).props;
      && Phandle(c) == (if HasPhandle(a) then Phandle(a) + delta else 0) && Phandle(c) < NO_PHANDLE
      && (name != PHANDLE && name != LINUX_PHANDLE ==>
        MovedUp(Get(a, name), RefsAt(t1, t1.kids[FindKid(t1.kids, LOCAL_FIXUPS, 0)], p, name), delta)
          == Good(Get(c, name)))
  {
    hide Adjust, UpdateNode, FindKid, MovedUp, Get, RefsAt, Phandle, SameShape, Below, HasPhandle, HasCell, Has;
    var fix := t1.kids[FindKid(t1.kids, LOCAL_FIXUPS, 0)];
    AdjustShape(t, delta);
    AdjustAt(t, delta, p);
    var a, b := Below(t, p).props, Below(t1, p).props;
    AdjustPropsGet(a, delta, name);
    UpdateNodeGet(t1, fix, delta, p, name);
    var c := Below(t2, p).props;
    UpdateNodeGet(t1, fix, delta, p, PHANDLE);
    UpdateNodeGet(t1, fix, delta, p, LINUX_PHANDLE);
    NoCells(Get(b, PHANDLE), delta);
    NoCells(Get(b, LINUX_PHANDLE), delta);
    PhandleGet(b);
    PhandleGet(c);
  }

  /** Every local reference still points to the node it pointed to. The cell at `off` of a property, listed once and
      overlapped by no other listed cell, goes from `w` to `w + delta`, and the first node with phandle `w + delta` is
      now the node that was the first with phandle `w`. */
  lemma ReferencesKept(t: Tree, delta: u32, t1: Tree, t2: Tree, p: IndexPath, name: bytes, k: nat)
    requires Adjust(t, delta) == Good(t1) && LocalReferences(t1, delta) == Good(t2) && Has(t, p)
    requires FindKid(t1.kids, LOCAL_FIXUPS, 0) < |t1.kids|
    requires PhandlesUnlisted(t1, t1.kids[FindKid(t1.kids, LOCAL_FIXUPS, 0)])
    requires name != PHANDLE && name != LINUX_PHANDLE && Get(Below(t, p).props, name).Some?
    requires Has(t1, p)
    requires var offs := RefsAt(t1, t1.kids[FindKid(t1.kids, LOCAL_FIXUPS, 0)], p, name);
      var value := Get(Below(t, p).props, name).value;
      k < |offs| && Separate(offs, |value|) && Be32(value, offs[k]) != 0
        && PointsTo(t, Be32(value, offs[k])) < |Locs(Loc(Top, t))|
    ensures Has(t2, p) && Get(Below(t2, p).props, name).Some?
    ensures var off := RefsAt(t1, t1.kids[FindKid(t1.kids, LOCAL_FIXUPS, 0)], p, name)[k];
      var w, after := Be32(Get(Below(t, p).props, name).value, off), Get(Below(t2, p).props, name).value;
      && off + 4 <= |after| && Be32(after, off) == w + delta < NO_PHANDLE
      && PointsTo(t2, w + delta) == PointsTo(t, w)
  {
    hide Adjust, UpdateNode, FindKid, Get, RefsAt, Phandle, SameShape, Below, HasPhandle, Locs, PathList, At, Cell,
      UpdateCells, Has, PhandlesUnlisted, LocalReferences, Separate;
    var offs := RefsAt(t1, t1.kids[FindKid(t1.kids, LOCAL_FIXUPS, 0)], p, name);
    var value := Get(Below(t, p).props, name).value;
    SeparateAt(offs, |value|, k);
    var off := offs[k];
    var w := Be32(value, off);
    RenumberedAt(t, delta, t1, t2, p, name);
    CellsListed(value, offs, delta, k);
    NodesKept(t, delta, t1, t2, w);
  }

  lemma SeparateAt(offs: seq<u32>, size: nat, k: nat)
    requires Separate(offs, size) && k < |offs|
    ensures offs[k] as int + 4 <= size
  {
  }

  /** A phandle that is in use stays in range, and leads to the same node. */
  lemma NodesKept(t: Tree, delta: u32, t1: Tree, t2: Tree, w: u32)
    requires Adjust(t, delta) == Good(t1) && LocalReferences(t1, delta) == Good(t2)
    requires FindKid(t1.kids, LOCAL_FIXUPS, 0) < |t1.kids|
    requires PhandlesUnlisted(t1, t1.kids[FindKid(t1.kids, LOCAL_FIXUPS, 0)])
    requires w != 0 && PointsTo(t, w) < |Locs(Loc(Top, t))|
    ensures w + delta < NO_PHANDLE && PointsTo(t2, w + delta) == PointsTo(t, w)
  {
    hide Adjust, FindKid, Phandle, SameShape, Below, HasCell, Locs, PathList, At, Cell, Has, PhandlesUnlisted,
      LocalReferences, Get, RefsAt, MovedUp;
    var l, m := Loc(Top, t), Loc(Top, t2);
    LocsArePaths(l);
    LocsArePaths(m);
    HasTop(t);
    RenumberedAt(t, delta, t1, t2, [], []);
    ShapeTwice(t, t1, t2);
    PathListShape(t, t2);
    var a, b := Locs(l), Locs(m);
    forall i | 0 <= i < |a|
      ensures Phandle(a[i].node.props) == w ==> w + delta < NO_PHANDLE
      ensures w + delta < NO_PHANDLE ==> (Phandle(a[i].node.props) == w <==> Phandle(b[i].node.props) == w + delta)
    {
      var p := PathList(t)[i];
      RenumberedAt(t, delta, t1, t2, p, []);
      AtBelow(l, p);
      AtBelow(m, p);
      NoPhandle(Below(t, p).props);
    }
    FirstHas(a, w);
    FirstSame(a, b, w, w + delta, 0);
  }

  lemma HasTop(t: Tree)
    ensures Has(t, [])
  {
  }

  lemma NoPhandle(ps: seq<Prop>)
    ensures !HasPhandle(ps) ==> Phandle(ps) == 0
  {
  }

  lemma FirstHas(ls: seq<Loc>, w: u32)
    requires FirstPhandle(ls, w, 0) < |ls|
    ensures Phandle(ls[FirstPhandle(ls, w, 0)].node.props) == w
  {
  }

  /** No renumbered phandle is a phandle of the base: those are at most `delta`, or all ones. Two nodes whose phandles
      differed still have different ones. */
  lemma NoCollision(ps: seq<Prop>, qs: seq<Prop>, delta: u32)
    requires AdjustProps(ps, delta).Good? && AdjustProps(qs, delta).Good? && HasPhandle(ps) && HasPhandle(qs)
    requires Phandle(ps) != 0
    ensures var a, b := Phandle(AdjustProps(ps, delta).value), Phandle(AdjustProps(qs, delta).value);
      delta < a < NO_PHANDLE && (a == b <==> Phandle(ps) == Phandle(qs))
  {
    hide Phandle, AdjustProps, HasPhandle;
    AdjustPropsGet(ps, delta, []);
    AdjustPropsGet(qs, delta, []);
  }
}
