/** What applying an overlay means for trees. */
module Merge {
  import opened Bytes
  import opened Strings
  import opened Trees
  import opened Lexer
  import opened Preorder
  import opened FdtRo
  import opened FdtRoPath
  import opened FdtRoPhandle
  import opened FdtRw

  const TARGET: bytes := [116, 97, 114, 103, 101, 116]
  const TARGET_PATH: bytes := [116, 97, 114, 103, 101, 116, 45, 112, 97, 116, 104]
  const OVERLAY: bytes := [95, 95, 111, 118, 101, 114, 108, 97, 121, 95, 95]

  /** Properties set one after the other. */
  function MergeProps(ps: seq<Prop>, qs: seq<Prop>): seq<Prop>
    decreases |qs|
  {
    if qs == [] then ps else MergeProps(SetAt(ps, qs[0].name, qs[0].value), qs[1..])
  }

  /** A node of the base with a node of the overlay merged into it. */
  function MergeNode(t: Tree, o: Tree): Tree
    decreases o, 0
  {
    Node(t.name, MergeProps(t.props, o.props), MergeKids(t.kids, o.kids))
  }

  /** Children merged one after the other. */
  function MergeKids(ks: seq<Tree>, os: seq<Tree>): seq<Tree>
    decreases os
  {
    if os == [] then ks else MergeKids(MergeKid(ks, os[0]), os[1..])
  }

  /** One child merged: into the first child that answers to its name, or into a new first child. */
  function MergeKid(ks: seq<Tree>, o: Tree): seq<Tree>
    decreases o, 1
  {
    var i := FindKid(ks, o.name, 0);
    if i < |ks| then ks[i := MergeNode(ks[i], o)] else [MergeNode(Node(o.name, [], []), o)] + ks
  }

  lemma {:induction false} MergePropsEnd(ps: seq<Prop>, qs: seq<Prop>, q: Prop)
    ensures MergeProps(ps, qs + [q]) == SetAt(MergeProps(ps, qs), q.name, q.value)
    decreases |qs|
  {
    if qs == [] {
      assert [q][1..] == [];
    } else {
      assert (qs + [q])[1..] == qs[1..] + [q];
      MergePropsEnd(SetAt(ps, qs[0].name, qs[0].value), qs[1..], q);
    }
  }

  lemma {:induction false} MergeKidsEnd(ks: seq<Tree>, os: seq<Tree>, o: Tree)
    ensures MergeKids(ks, os + [o]) == MergeKid(MergeKids(ks, os), o)
    decreases |os|
  {
    hide MergeKid;
    if os == [] {
      assert [] + [o] == [o] && [o][1..] == [];
    } else {
      assert (os + [o])[1..] == os[1..] + [o];
      MergeKidsEnd(MergeKid(ks, os[0]), os[1..], o);
    }
  }

  /** The value of a property: the first one counts. */
  datatype Value = Some(value: bytes) | None

  function Get(ps: seq<Prop>, name: bytes): Value {
    var q := FindProp(ps, name, 0);
    if q < |ps| then Some(ps[q].value) else None
  }

  lemma {:induction false} FindPropIs(ps: seq<Prop>, name: bytes, i: nat, q: nat)
    requires i <= q < |ps| && ps[q].name == name && forall k :: i <= k < q ==> ps[k].name != name
    ensures FindProp(ps, name, i) == q
    decreases q - i
  {
    if i < q { FindPropIs(ps, name, i + 1, q); }
  }

  lemma {:induction false} FindPropFirst(ps: seq<Prop>, name: bytes, i: nat)
    requires i <= |ps|
    ensures forall k :: i <= k < FindProp(ps, name, i) ==> ps[k].name != name
    decreases |ps| - i
  {
    if i < |ps| && ps[i].name != name { FindPropFirst(ps, name, i + 1); }
  }

  lemma {:induction false} FindPropNone(ps: seq<Prop>, name: bytes, i: nat)
    requires i <= |ps| && forall k :: i <= k < |ps| ==> ps[k].name != name
    ensures FindProp(ps, name, i) == |ps|
    decreases |ps| - i
  {
    if i < |ps| { FindPropNone(ps, name, i + 1); }
  }

  /** Setting a property changes that property and no other. */
  lemma GetSet(ps: seq<Prop>, name: bytes, value: bytes, other: bytes)
    ensures Get(SetAt(ps, name, value), other) == if other == name then Some(value) else Get(ps, other)
  {
    var q, r := FindProp(ps, name, 0), SetAt(ps, name, value);
    FindPropFirst(ps, name, 0);
    if other == name {
      FindPropIs(r, name, 0, PosOf(ps, name));
    } else {
      var x := FindProp(ps, other, 0);
      FindPropFirst(ps, other, 0);
      var shift := if q < |ps| then 0 else 1;
      if x < |ps| {
        FindPropIs(r, other, 0, x + shift);
      } else {
        FindPropNone(r, other, 0);
      }
    }
  }

  /** The last property of that name in the overlay's list. */
  function LastValue(qs: seq<Prop>, name: bytes): Value {
    if qs == [] then None
    else if qs[|qs| - 1].name == name then Some(qs[|qs| - 1].value)
    else LastValue(qs[..|qs| - 1], name)
  }

  /** Every property of the overlay overrides the base, and every other property of the base is unchanged. */
  lemma {:induction false} MergePropsGet(ps: seq<Prop>, qs: seq<Prop>, name: bytes)
    ensures Get(MergeProps(ps, qs), name) == if LastValue(qs, name).Some? then LastValue(qs, name) else Get(ps, name)
    decreases |qs|
  {
    hide Get, SetAt;
    if qs != [] {
      var a, z := qs[..|qs| - 1], qs[|qs| - 1];
      assert qs == a + [z];
      MergePropsEnd(ps, a, z);
      GetSet(MergeProps(ps, a), z.name, z.value, name);
      MergePropsGet(ps, a, name);
    }
  }

  lemma {:induction false} FindKidIs(ks: seq<Tree>, s: bytes, i: nat, q: nat)
    requires i <= q < |ks| && Matches(ks[q].name, s) && forall k :: i <= k < q ==> !Matches(ks[k].name, s)
    ensures FindKid(ks, s, i) == q
    decreases q - i
  {
    hide Matches;
    if i < q { FindKidIs(ks, s, i + 1, q); }
  }

  lemma {:induction false} FindKidFirst(ks: seq<Tree>, s: bytes, i: nat)
    requires i <= |ks|
    ensures forall k :: i <= k < FindKid(ks, s, i) ==> !Matches(ks[k].name, s)
    decreases |ks| - i
  {
    hide Matches;
    if i < |ks| && !Matches(ks[i].name, s) { FindKidFirst(ks, s, i + 1); }
  }

  lemma MergeNodeName(t: Tree, o: Tree)
    ensures MergeNode(t, o).name == t.name
  {
    hide MergeKids, MergeProps;
  }

  /** One child merged: what is where. */
  lemma MergeKidNames(ks: seq<Tree>, o: Tree)
    ensures var js, i := MergeKid(ks, o), FindKid(ks, o.name, 0);
      var x := if i < |ks| then 0 else 1;
      && |js| == x + |ks| && (x == 1 ==> js[0] == MergeNode(Node(o.name, [], []), o) && js[0].name == o.name)
      && (i < |ks| ==> js[i] == MergeNode(ks[i], o))
      && (forall k :: 0 <= k < |ks| ==> js[x + k].name == ks[k].name)
      && (forall k :: 0 <= k < |ks| && !Matches(ks[k].name, o.name) ==> js[x + k] == ks[k])
  {
    hide MergeNode, Matches, FindKid, MergeKid;
    var i, js := FindKid(ks, o.name, 0), MergeKid(ks, o);
    MergeKidCases(ks, o);
    if i < |ks| {
      MergeNodeName(ks[i], o);
      forall k | 0 <= k < |ks|
        ensures js[0 + k].name == ks[k].name && (!Matches(ks[k].name, o.name) ==> js[0 + k] == ks[k])
      {
        assert js[k] == if k == i then MergeNode(ks[i], o) else ks[k];
      }
    } else {
      MergeNodeName(Node(o.name, [], []), o);
      assert forall k :: 0 <= k < |ks| ==> js[1 + k] == ks[k];
    }
  }

  lemma MergeKidCases(ks: seq<Tree>, o: Tree)
    ensures var i := FindKid(ks, o.name, 0);
      MergeKid(ks, o) ==
        if i < |ks| then ks[i := MergeNode(ks[i], o)] else [MergeNode(Node(o.name, [], []), o)] + ks
  {
    hide MergeNode, FindKid;
  }

  lemma MergeNone(ks: seq<Tree>)
    ensures MergeKids(ks, []) == ks
  {
  }

  lemma MergeKidsStep(ks: seq<Tree>, os: seq<Tree>)
    requires os != []
    ensures MergeKids(ks, os) == MergeKids(MergeKid(ks, os[0]), os[1..])
  {
    hide MergeKid;
  }

  /** The children of the base stay behind the new ones, in order and with their names, and those that no child of the
      overlay answers for are unchanged. */
  lemma {:induction false} MergeKidsKeeps(ks: seq<Tree>, os: seq<Tree>) returns (n: nat)
    ensures KidsKept(ks, os, MergeKids(ks, os), n)
    decreases |os|
  {
    hide Matches, MergeNode, MergeKid, MergeKids, FindKid, KidsKept;
    n := 0;
    if os == [] {
      MergeNone(ks);
      KeptNone(ks);
    } else {
      MergeKidsStep(ks, os);
      var js, x := MergeKid(ks, os[0]), if FindKid(ks, os[0].name, 0) < |ks| then 0 else 1;
      MergeKidNames(ks, os[0]);
      n := MergeKidsKeeps(js, os[1..]);
      KeptMore(ks, os, js, x, MergeKids(js, os[1..]), n);
      n := n + x;
    }
  }

  /** `ks` is in `r` behind `n` new children, with the same names; those that nothing in `os` answers for are
      the same. */
  predicate KidsKept(ks: seq<Tree>, os: seq<Tree>, r: seq<Tree>, n: nat) {
    && |r| == n + |ks| && n <= |os|
    && (forall i :: 0 <= i < |ks| ==> r[n + i].name == ks[i].name)
    && (forall i :: 0 <= i < |ks| && Unanswered(ks[i].name, os) ==> r[n + i] == ks[i])
  }

  /** No child of the overlay answers for this name. */
  predicate Unanswered(name: bytes, os: seq<Tree>) {
    forall j :: 0 <= j < |os| ==> !Matches(name, os[j].name)
  }

  lemma KeptNone(ks: seq<Tree>)
    ensures KidsKept(ks, [], ks, 0)
  {
  }

  lemma KeptMore(ks: seq<Tree>, os: seq<Tree>, js: seq<Tree>, x: nat, r: seq<Tree>, n: nat)
    requires os != [] && x <= 1 && |js| == x + |ks| && KidsKept(js, os[1..], r, n)
    requires forall i :: 0 <= i < |ks| ==> js[x + i].name == ks[i].name
    requires forall i :: 0 <= i < |ks| && !Matches(ks[i].name, os[0].name) ==> js[x + i] == ks[i]
    ensures KidsKept(ks, os, r, n + x)
  {
    hide Matches;
    forall i | 0 <= i < |ks|
      ensures r[n + x + i].name == ks[i].name && (Unanswered(ks[i].name, os) ==> r[n + x + i] == ks[i])
    {
      assert js[x + i].name == ks[i].name && r[n + (x + i)].name == js[x + i].name;
      if Unanswered(ks[i].name, os) {
        assert !Matches(ks[i].name, os[0].name);
        assert forall j :: 0 <= j < |os[1..]| ==> os[1..][j] == os[j + 1];
        assert Unanswered(js[x + i].name, os[1..]);
      }
    }
  }

  /** A child that answers to one child of the overlay only is merged with it. */
  lemma {:induction false} MergeKidsMerges(ks: seq<Tree>, os: seq<Tree>, j: nat) returns (n: nat)
    requires j < |os| && FindKid(ks, os[j].name, 0) < |ks|
    requires forall b :: 0 <= b < |os| && b != j ==> !Matches(ks[FindKid(ks, os[j].name, 0)].name, os[b].name)
    requires forall b :: 0 <= b < j ==> !Matches(os[b].name, os[j].name)
    ensures |MergeKids(ks, os)| == n + |ks|
    ensures var i := FindKid(ks, os[j].name, 0); MergeKids(ks, os)[n + i] == MergeNode(ks[i], os[j])
    decreases |os|
  {
    hide Matches, MergeNode, MergeKid, MergeKids, FindKid;
    var i := FindKid(ks, os[j].name, 0);
    MergeKidsStep(ks, os);
    var js, x := MergeKid(ks, os[0]), if FindKid(ks, os[0].name, 0) < |ks| then 0 else 1;
    FindKidFirst(ks, os[j].name, 0);
    MergeKidNames(ks, os[0]);
    if j == 0 {
      n := MergeKidsKeeps(js, os[1..]);
      assert js[i] == MergeNode(ks[i], os[0]) && js[i].name == ks[i].name;
      assert forall b :: 0 <= b < |os[1..]| ==> os[1..][b] == os[b + 1];
    } else {
      assert os[1..][j - 1] == os[j];
      assert !Matches(ks[i].name, os[0].name) && !Matches(os[0].name, os[j].name);
      assert js[x + i] == ks[i];
      forall k | 0 <= k < x + i ensures !Matches(js[k].name, os[j].name) {
        if k >= x { assert js[x + (k - x)].name == ks[k - x].name; }
      }
      FindKidIs(js, os[j].name, 0, x + i);
      n := MergeKidsMerges(js, os[1..], j - 1);
    }
    n := n + x;
  }

  /** A child of the overlay that nothing in the base answers to is a new child, with only what the overlay gives it. */
  lemma {:induction false} MergeKidsAdds(ks: seq<Tree>, os: seq<Tree>, j: nat) returns (x: nat)
    requires j < |os| && FindKid(ks, os[j].name, 0) == |ks|
    requires forall b :: 0 <= b < j ==> !Matches(os[b].name, os[j].name)
    requires forall b :: j < b < |os| ==> !Matches(os[j].name, os[b].name)
    ensures x < |MergeKids(ks, os)| && MergeKids(ks, os)[x] == MergeNode(Node(os[j].name, [], []), os[j])
    decreases |os|
  {
    hide Matches, MergeNode, MergeKid, MergeKids, FindKid;
    var js := MergeKid(ks, os[0]);
    MergeKidsStep(ks, os);
    FindKidFirst(ks, os[j].name, 0);
    MergeKidNames(ks, os[0]);
    if j == 0 {
      x := MergeKidsKeeps(js, os[1..]);
      assert js[0] == MergeNode(Node(os[0].name, [], []), os[0]) && js[0].name == os[0].name;
      assert forall b :: 0 <= b < |os[1..]| ==> os[1..][b] == os[b + 1];
    } else {
      assert os[1..][j - 1] == os[j];
      assert !Matches(os[0].name, os[j].name);
      var y := if FindKid(ks, os[0].name, 0) < |ks| then 0 else 1;
      forall k | 0 <= k < |js| ensures !Matches(js[k].name, os[j].name) {
        if k >= y { assert js[y + (k - y)].name == ks[k - y].name; }
      }
      NoKid(js, os[j].name);
      x := MergeKidsAdds(js, os[1..], j - 1);
    }
  }

  lemma NoKid(ks: seq<Tree>, s: bytes)
    requires forall k :: 0 <= k < |ks| ==> !Matches(ks[k].name, s)
    ensures FindKid(ks, s, 0) == |ks|
  {
    hide Matches;
  }

  /** The phandle in the target property of a fragment: 0 when there is none, all ones when it is malformed. */
  function TargetPhandle(ps: seq<Prop>): u32 {
    match Get(ps, TARGET)
    case None => 0
    case Some(value) => if |value| == 4 then Cell(value) else NO_PHANDLE
  }

  /** What a fragment is applied to. */
  datatype Target = Hit(l: Loc) | Miss(err: int)

  function TargetOf(base: Tree, frag: Tree): Target {
    var ph := TargetPhandle(frag.props);
    if ph == NO_PHANDLE then Miss(-ERR_BADPHANDLE)
    else if ph != 0 then ByPhandle(base, ph)
    else
      match Get(frag.props, TARGET_PATH)
      case None => Miss(-ERR_BADOVERLAY)
      case Some(value) =>
        match Resolve(Loc(Top, base), StrAt(value, 0))
        case To(l) => Hit(l)
        case Missing => Miss(-ERR_NOTFOUND)
  }

  /** The first node of a tree with that phandle. */
  function ByPhandle(t: Tree, ph: u32): Target {
    var ls := Locs(Loc(Top, t));
    var i := FirstPhandle(ls, ph, 0);
    if i < |ls| then Hit(ls[i]) else Miss(-ERR_NOTFOUND)
  }

  /** A target path, where there is one, is a terminated absolute path. */
  predicate GoodPath(ps: seq<Prop>) {
    match Get(ps, TARGET_PATH)
    case None => true
    case Some(value) => HasStr(value, 0) && value[0] == SLASH
  }

  /** A fragment, and what it brings. */
  predicate IsFragment(frag: Tree) {
    FindKid(frag.kids, OVERLAY, 0) < |frag.kids|
  }

  function Content(frag: Tree): Tree
    requires IsFragment(frag)
  {
    frag.kids[FindKid(frag.kids, OVERLAY, 0)]
  }

  /** The targets of fragments can be followed. */
  predicate GoodTargets(frags: seq<Tree>) {
    forall i :: 0 <= i < |frags| && IsFragment(frags[i]) ==> GoodPath(frags[i].props)
  }

  datatype Merged = Ok(tree: Tree) | Fail(err: int)

  /** The fragments merged into the base, in order; children without an `__overlay__` child are no fragments. */
  function MergeFrags(base: Tree, frags: seq<Tree>): Merged
    decreases |frags|
  {
    if frags == [] then Ok(base)
    else
      var i := FindKid(frags[0].kids, OVERLAY, 0);
      if i == |frags[0].kids| then MergeFrags(base, frags[1..])
      else
        match TargetOf(base, frags[0])
        case Miss(e) => Fail(e)
        case Hit(l) => MergeFrags(Plug(l.ctx, MergeNode(l.node, frags[0].kids[i])), frags[1..])
  }
}
