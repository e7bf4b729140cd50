/** What the edits of a session mean: where they change the tree, to what, and nowhere else. */
module EditMeanings {
  import opened Bytes
  import opened Trees
  import opened Walk
  import opened Lexer
  import opened Edits
  import opened FdtRo
  import opened FdtRoPath
  import opened FdtRw
  import opened FdtRwNodes
  import opened FdtRwBlocks
  import opened IndexPaths
  import opened Merge
  import opened Session
  import opened SymbolPaths
  import opened Targets
  import opened Views

  /** Another node at a location is another node at its path. */
  lemma WholeIsPut(l: Loc, n: Tree)
    ensures var t, g := Whole(l), PathTo(l);
      Has(t, g) && Below(t, g) == l.node && Whole(Loc(l.ctx, n)) == Put(t, g, n)
  {
    hide Whole;
    PathToAt(l);
    var r := Loc(Top, Whole(l));
    TopWhole(r);
    AtBelow(r, PathTo(l));
    AtPut(r, PathTo(l), n);
    TopWhole(Loc(Top, Put(Whole(l), PathTo(l), n)));
  }

  /** The node that the path of an edit leads to, and where it is. */
  ghost predicate LeadsThere(m: Model, path: bytes, l: Loc, g: IndexPath) {
    Resolve(Loc(Top, m.tree), path) == To(l) && g == PathTo(l) && Has(m.tree, g) && Below(m.tree, g) == l.node
  }

  lemma EditsThere(m: Model, path: bytes)
    ensures Resolve(Loc(Top, m.tree), path).To? ==>
      var l := Resolve(Loc(Top, m.tree), path).l; Whole(l) == m.tree && LeadsThere(m, path, l, PathTo(l))
  {
    hide Whole, Resolve;
    var r := Loc(Top, m.tree);
    ResolveWhole(r, path);
    TopWhole(r);
    if Resolve(r, path).To? { WholeIsPut(Resolve(r, path).l, Resolve(r, path).l.node); }
  }

  /** Setting a property: that value, and no other property changes. */
  lemma SetMeans(m: Model, path: bytes, name: bytes, value: bytes, l: Loc, g: IndexPath) returns (ps: seq<Prop>)
    requires LeadsThere(m, path, l, g)
    ensures Apply(m, Set(path, name, value)) ==
      Now(m.(tree := Put(m.tree, g, Node(l.node.name, ps, l.node.kids))))
    ensures forall other :: Get(ps, other) == if other == name then Some(value) else Get(l.node.props, other)
  {
    hide Whole, Resolve, SetAt, Put, Get;
    EditsThere(m, path);
    ps := SetAt(l.node.props, name, value);
    forall other ensures Get(ps, other) == if other == name then Some(value) else Get(l.node.props, other) {
      GetSet(l.node.props, name, value, other);
    }
    WholeIsPut(l, Node(l.node.name, ps, l.node.kids));
    assert WithProps(l, ps) == Loc(l.ctx, Node(l.node.name, ps, l.node.kids));
  }

  /** Appending to a property: the old value, if any, and the new bytes. */
  lemma AppendMeans(m: Model, path: bytes, name: bytes, value: bytes, l: Loc, g: IndexPath) returns (ps: seq<Prop>)
    requires LeadsThere(m, path, l, g)
    ensures Apply(m, Append(path, name, value)) ==
      Now(m.(tree := Put(m.tree, g, Node(l.node.name, ps, l.node.kids))))
    ensures forall other :: other != name ==> Get(ps, other) == Get(l.node.props, other)
    ensures var v := Get(l.node.props, name); Get(ps, name) == Some(if v.Some? then v.value + value else value)
  {
    hide Whole, Resolve, SetAt, Put, FindProp;
    EditsThere(m, path);
    var w := Extended(l.node.props, name, value);
    ps := SetAt(l.node.props, name, w);
    forall other ensures Get(ps, other) == if other == name then Some(w) else Get(l.node.props, other) {
      GetSet(l.node.props, name, w, other);
    }
    WholeIsPut(l, Node(l.node.name, ps, l.node.kids));
    assert WithProps(l, ps) == Loc(l.ctx, Node(l.node.name, ps, l.node.kids));
  }

  /** Deleting a property: the first of its name is gone; without one the edit is refused. */
  lemma DeleteMeans(m: Model, path: bytes, name: bytes, l: Loc, g: IndexPath, q: nat)
    requires LeadsThere(m, path, l, g)
    ensures IsFirst(l.node.props, q, name) ==>
      Apply(m, Delete(path, name)) == Now(m.(tree := Put(m.tree, g,
        Node(l.node.name, l.node.props[..q] + l.node.props[q + 1..], l.node.kids))))
    ensures IsMissing(l.node.props, name) ==> Apply(m, Delete(path, name)) == Refused
  {
    hide Whole, Resolve, Put, FindProp;
    EditsThere(m, path);
    FirstIs(l.node.props, q, name);
    GetNone(l.node.props, name);
    if IsFirst(l.node.props, q, name) {
      var ps := l.node.props[..q] + l.node.props[q + 1..];
      WholeIsPut(l, Node(l.node.name, ps, l.node.kids));
      assert WithProps(l, ps) == Loc(l.ctx, Node(l.node.name, ps, l.node.kids));
    }
  }

  /** Adding a node: an empty first child, unless a child answers to the name. */
  lemma AddMeans(m: Model, path: bytes, name: bytes, l: Loc, g: IndexPath)
    requires LeadsThere(m, path, l, g)
    ensures Apply(m, Add(path, name)) ==
      if exists i :: 0 <= i < |l.node.kids| && Matches(l.node.kids[i].name, name) then Refused
      else Now(m.(tree := Put(m.tree, g, Node(l.node.name, l.node.props, [Node(name, [], [])] + l.node.kids))))
  {
    hide Whole, Resolve, Put, FindKid, Matches;
    EditsThere(m, path);
    var ks := l.node.kids;
    FindKidFirst(ks, name, 0);
    if i :| 0 <= i < |ks| && Matches(ks[i].name, name) { assert FindKid(ks, name, 0) <= i; }
    var js := [Node(name, [], [])] + ks;
    WholeIsPut(l, Node(l.node.name, l.node.props, js));
    assert WithKids(l, js) == Loc(l.ctx, Node(l.node.name, l.node.props, js));
  }

  /** Removing a node: its parent keeps the other children, in order. */
  lemma RemoveMeans(m: Model, path: bytes, l: Loc, g: IndexPath)
    requires LeadsThere(m, path, l, g) && g != []
    ensures var h, i := g[..|g| - 1], g[|g| - 1];
      && Has(m.tree, h) && i < |Below(m.tree, h).kids|
      && var n := Below(m.tree, h);
        Apply(m, Remove(path)) == Now(m.(tree := Put(m.tree, h, Node(n.name, n.props, n.kids[..i] + n.kids[i + 1..]))))
  {
    hide Whole, Resolve, Put, Has, Below;
    EditsThere(m, path);
    var p, i := Parent(l), |l.ctx.left|;
    assert g == PathTo(p) + [i];
    assert g[..|g| - 1] == PathTo(p);
    ParentWhole(l);
    var ks := p.node.kids;
    assert ks[..i] == l.ctx.left && ks[i + 1..] == l.ctx.right;
    WholeIsPut(p, Node(p.node.name, p.node.props, ks[..i] + ks[i + 1..]));
  }

  /** Entries of the reserve map. */
  lemma ReserveMeans(m: Model, r: Rsv, n: nat)
    ensures r.size != 0 ==> Apply(m, Reserve(r.address, r.size)) == Now(m.(rsv := m.rsv + [r]))
    ensures r.size == 0 ==> Apply(m, Reserve(r.address, r.size)) == Now(m)
    ensures Apply(m, Unreserve(n)) == if n < |m.rsv| then Now(m.(rsv := m.rsv[..n] + m.rsv[n + 1..])) else Refused
  {
  }

  /** An edit whose path leads nowhere is refused. */
  lemma NowhereMeans(m: Model, e: Edit)
    requires !e.Reserve? && !e.Unreserve? && Resolve(Loc(Top, m.tree), e.path).Missing?
    ensures Apply(m, e) == Refused
  {
    hide Resolve;
  }

  /** Edits are done in order; one that is refused, or that failed, changes nothing. */
  lemma {:induction false} InOrderMeans(m: Model, es: seq<Edit>, e: Edit)
    ensures AllDone(m, []) == m
    ensures AllDone(m, es + [e]) ==
      match Apply(AllDone(m, es), e) case Now(u) => u case Refused => AllDone(m, es)
    decreases |es|
  {
    hide Apply;
    if es == [] {
      assert [] + [e] == [e] && [e][1..] == [];
    } else {
      assert (es + [e])[1..] == es[1..] + [e] && (es + [e])[0] == es[0];
      InOrderMeans(if Apply(m, es[0]).Now? then Apply(m, es[0]).m else m, es[1..], e);
    }
  }

  lemma {:induction false} FailedMeans(m: Model, es: seq<Edit>, errs: seq<int>, e: Edit, err: int)
    requires |es| == |errs|
    ensures AfterAll(m, [], []) == m
    ensures AfterAll(m, es + [e], errs + [err]) ==
      var u := AfterAll(m, es, errs); if err == 0 && Apply(u, e).Now? then Apply(u, e).m else u
    decreases |es|
  {
    hide Apply;
    if es == [] {
      assert es + [e] == [e] && errs + [err] == [err] && [e][1..] == [] && [err][1..] == [];
    } else {
      assert (es + [e])[1..] == es[1..] + [e] && (errs + [err])[1..] == errs[1..] + [err];
      FailedMeans(After(m, es[0], errs[0]), es[1..], errs[1..], e, err);
    }
  }

  /** What each result of a session says. */
  lemma {:induction false} ToldMeans(m: Model, es: seq<Edit>, errs: seq<int>, i: nat)
    requires Told(m, es, errs) && i < |es|
    ensures |es| == |errs|
    ensures var u := AfterAll(m, es[..i], errs[..i]);
      && (errs[i] == 0 ==> Apply(u, es[i]).Now?)
      && (errs[i] != 0 && errs[i] != -3 ==> Apply(u, es[i]) == Refused)
    decreases i
  {
    hide Apply;
    if i == 0 {
      assert es[..0] == [] && errs[..0] == [];
    } else {
      assert es[..i][1..] == es[1..][..i - 1] && errs[..i][1..] == errs[1..][..i - 1];
      ToldMeans(After(m, es[0], errs[0]), es[1..], errs[1..], i - 1);
    }
  }
}
