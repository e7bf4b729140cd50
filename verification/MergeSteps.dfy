/** Merging fragments and adding symbols, step by step: when they succeed, and what they leave alone. */
module MergeSteps {
  import opened Bytes
  import opened Strings
  import opened Trees
  import opened Walk
  import opened Lexer
  import opened FdtRo
  import opened FdtRoPath
  import opened FdtRoPhandle
  import opened FdtRw
  import opened FdtOverlayMerge
  import opened FixedCells
  import opened Fixups
  import opened Grafts
  import opened IndexPaths
  import opened Merge
  import opened Renumber
  import opened SymbolPaths
  import opened Symbols

  /** One fragment is merged at the path of its target, into what stands there, and nowhere else; a child that is no
      fragment is passed over; a fragment without a target ends the merge. */
  lemma FragmentStep(t: Tree, frag: Tree)
    ensures MergeFrags(t, [frag]) ==
      if !IsFragment(frag) then Merged.Ok(t)
      else
        match TargetOf(t, frag)
        case Miss(e) => Fail(e)
        case Hit(l) =>
          Merged.Ok(Plug(l.ctx, MergeNode(l.node, Content(frag))))
    ensures IsFragment(frag) && TargetOf(t, frag).Hit? ==>
      var g := PathTo(TargetOf(t, frag).l);
      Has(t, g) && At(Loc(Top, t), g) == TargetOf(t, frag).l
      && MergeFrags(t, [frag]) == Merged.Ok(Put(t, g, MergeNode(Below(t, g), Content(frag))))
  {
    hide TargetOf, MergeNode, FindKid;
    assert [frag][1..] == [];
    if IsFragment(frag) && TargetOf(t, frag).Hit? { MergedThere(t, frag); }
  }

  /** Fragments are merged one after the other. */
  lemma {:induction false} FragmentsInTurn(t: Tree, frags: seq<Tree>, frag: Tree)
    ensures MergeFrags(t, []) == Merged.Ok(t)
    ensures MergeFrags(t, frags + [frag]) ==
      match MergeFrags(t, frags)
      case Fail(e) => Fail(e)
      case Ok(u) => MergeFrags(u, [frag])
    decreases |frags|
  {
    hide TargetOf, MergeNode, FindKid;
    if frags == [] {
      assert [] + [frag] == [frag];
    } else {
      assert (frags + [frag])[1..] == frags[1..] + [frag] && (frags + [frag])[0] == frags[0];
      if !IsFragment(frags[0]) {
        FragmentsInTurn(t, frags[1..], frag);
      } else if TargetOf(t, frags[0]).Hit? {
        var l := TargetOf(t, frags[0]).l;
        FragmentsInTurn(Plug(l.ctx, MergeNode(l.node, Content(frags[0]))), frags[1..], frag);
      }
    }
  }

  /** Merging succeeds exactly when every fragment finds its target in the tree that those before it leave. */
  lemma {:induction false} FragmentsExact(t: Tree, frags: seq<Tree>)
    ensures MergeFrags(t, frags).Ok? <==> forall k :: 0 <= k < |frags| ==> Hits(t, frags, k)
    decreases |frags|
  {
    hide TargetOf, MergeNode, FindKid, MergeFrags;
    if frags == [] {
      FragmentsInTurn(t, [], Node([], [], []));
    } else {
      var n := |frags| - 1;
      var a, z := frags[..n], frags[n];
      assert frags == a + [z];
      FragmentsExact(t, a);
      FragmentsInTurn(t, a, z);
      forall k | 0 <= k < n ensures Hits(t, frags, k) <==> Hits(t, a, k) { assert a[..k] == frags[..k]; }
      if MergeFrags(t, a).Ok? { FragmentStep(MergeFrags(t, a).tree, z); }
      assert frags[..n] == a;
      if forall k :: 0 <= k < |frags| ==> Hits(t, frags, k) {
        assert Hits(t, frags, n);
        assert forall k :: 0 <= k < n ==> Hits(t, frags, k) && Hits(t, a, k);
      }
      if MergeFrags(t, frags).Ok? {
        forall k | 0 <= k < |frags| ensures Hits(t, frags, k) { if k < n { assert Hits(t, a, k); } }
      }
    }
  }

  predicate Hits(t: Tree, frags: seq<Tree>, k: nat)
    requires k < |frags|
  {
    IsFragment(frags[k]) ==>
      MergeFrags(t, frags[..k]).Ok? && TargetOf(MergeFrags(t, frags[..k]).tree, frags[k]).Hit?
  }

  /** A symbol can be added: it is spelled as symbols are, and names a fragment with a target. */
  ghost predicate SymbolFits(b: Tree, ov: Tree, p: Prop) {
    exists k: nat, rel: bytes :: SymbolOf(ov, p, k, rel) && TargetOf(b, ov.kids[k]).Hit?
  }

  lemma AddSymbolExact(b: Tree, s: nat, ov: Tree, p: Prop)
    requires s < |b.kids|
    ensures AddSymbol(b, s, ov, p).Good? <==> SymbolFits(b, ov, p)
  {
    hide TargetOf, SetSymbol, ParseSymbol, SymbolPath, TargetText, FindKid, Spelled;
    if AddSymbol(b, s, ov, p).Good? {
      var k, rel := FindKid(ov.kids, ParseSymbol(p.value).frag, 0), ParseSymbol(p.value).rel;
      SymbolIsParsed(ov, p, k, rel);
      assert SymbolOf(ov, p, k, rel) && TargetOf(b, ov.kids[k]).Hit?;
    }
    if SymbolFits(b, ov, p) {
      var k: nat, rel: bytes :| SymbolOf(ov, p, k, rel) && TargetOf(b, ov.kids[k]).Hit?;
      SymbolIsParsed(ov, p, k, rel);
    }
  }

  /** A symbol that cannot be added: a bad value when it is not one terminated absolute path, a bad overlay when it
      names no fragment, else what its target is refused with. */
  lemma AddSymbolRefused(b: Tree, s: nat, ov: Tree, p: Prop)
    requires s < |b.kids|
    ensures var v := p.value;
      if !(v != [] && v[0] == SLASH && v[|v| - 1] == NUL && NUL !in v[..|v| - 1])
      then AddSymbol(b, s, ov, p) == Bad(-15)
      else (forall k: nat, rel: bytes :: !SymbolOf(ov, p, k, rel)) ==> AddSymbol(b, s, ov, p) == Bad(-16)
    ensures forall k: nat, rel: bytes :: SymbolOf(ov, p, k, rel) && TargetOf(b, ov.kids[k]).Miss? ==>
      AddSymbol(b, s, ov, p) == Bad(TargetOf(b, ov.kids[k]).err)
  {
    hide TargetOf, SetSymbol, ParseSymbol, SymbolPath, TargetText, FindKid, Spelled, SymbolOf;
    RefusedSymbols(p.value);
    forall k: nat, rel: bytes
      ensures SymbolOf(ov, p, k, rel) <==>
        && ParseSymbol(p.value).Inside? && rel == ParseSymbol(p.value).rel
        && k == FindKid(ov.kids, ParseSymbol(p.value).frag, 0) && k < |ov.kids| && IsFragment(ov.kids[k])
    {
      SymbolIsParsed(ov, p, k, rel);
    }
    if ParseSymbol(p.value).Inside? {
      var k, rel := FindKid(ov.kids, ParseSymbol(p.value).frag, 0), ParseSymbol(p.value).rel;
      if k < |ov.kids| && IsFragment(ov.kids[k]) { assert SymbolOf(ov, p, k, rel); }
    }
  }

  /** A target is found before a symbol is set exactly when it is found afterwards. */
  lemma TargetStill(b: Tree, s: nat, name: bytes, w: bytes, frag: Tree)
    requires s < |b.kids| && name != PHANDLE && name != LINUX_PHANDLE
    ensures TargetOf(b, frag).Hit? <==> TargetOf(SetSymbol(b, s, name, w), frag).Hit?
  {
    hide SetSymbol, TargetPhandle, Get, Full, Resolve, Follow, SameFrame;
    if TargetPhandle(frag.props) != 0 {
      SetTarget(b, s, name, w, frag);
    } else if Get(frag.props, TARGET_PATH).Some? {
      var u, text := SetSymbol(b, s, name, w), StrAt(Get(frag.props, TARGET_PATH).value, 0);
      SetFrame(b, s, name, w);
      FollowFrame(b, u, text);
      FollowIs(Loc(Top, b), text);
      FollowIs(Loc(Top, u), text);
    }
  }

  lemma FitsStill(b: Tree, s: nat, name: bytes, w: bytes, ov: Tree, p: Prop)
    requires s < |b.kids| && name != PHANDLE && name != LINUX_PHANDLE
    ensures SymbolFits(b, ov, p) <==> SymbolFits(SetSymbol(b, s, name, w), ov, p)
  {
    hide SetSymbol, TargetOf, Spelled, FindKid;
    var u := SetSymbol(b, s, name, w);
    forall k: nat, rel: bytes | SymbolOf(ov, p, k, rel)
      ensures TargetOf(b, ov.kids[k]).Hit? <==> TargetOf(u, ov.kids[k]).Hit?
    {
      TargetStill(b, s, name, w, ov.kids[k]);
    }
  }

  /** Adding symbols succeeds exactly when each can be added. */
  lemma {:induction false} AddSymbolsExact(b: Tree, s: nat, ov: Tree, ps: seq<Prop>)
    requires s < |b.kids| && NoPhandleNames(ps)
    ensures AddSymbols(b, s, ov, ps).Good? <==> forall i :: 0 <= i < |ps| ==> SymbolFits(b, ov, ps[i])
    decreases |ps|
  {
    hide AddSymbol, SymbolFits, SetSymbol, AddSymbols, SymbolValue;
    if ps == [] {
      AddNone(b, s, ov);
    } else {
      AddSymbolExact(b, s, ov, ps[0]);
      AddFirst(b, s, ov, ps);
      if AddSymbol(b, s, ov, ps[0]).Good? {
        var u := SetSymbol(b, s, ps[0].name, SymbolValue(b, ov, ps[0]));
        SetKids(b, s, ps[0].name, SymbolValue(b, ov, ps[0]));
        AddSymbolsExact(u, s, ov, ps[1..]);
        forall i | 0 <= i < |ps| ensures SymbolFits(b, ov, ps[i]) <==> SymbolFits(u, ov, ps[i]) {
          FitsStill(b, s, ps[0].name, SymbolValue(b, ov, ps[0]), ov, ps[i]);
        }
        AllOrRest(b, u, ov, ps);
      }
    }
  }

  lemma AddNone(b: Tree, s: nat, ov: Tree)
    requires s < |b.kids|
    ensures AddSymbols(b, s, ov, []) == Good(b)
  {
    hide AddSymbol;
  }

  lemma AddFirst(b: Tree, s: nat, ov: Tree, ps: seq<Prop>)
    requires s < |b.kids| && ps != []
    ensures var u := SetSymbol(b, s, ps[0].name, SymbolValue(b, ov, ps[0]));
      && s < |u.kids|
      && (AddSymbol(b, s, ov, ps[0]).Good? ==> AddSymbols(b, s, ov, ps) == AddSymbols(u, s, ov, ps[1..]))
      && (AddSymbol(b, s, ov, ps[0]).Bad? ==> AddSymbols(b, s, ov, ps) == AddSymbol(b, s, ov, ps[0]))
  {
    hide AddSymbol, SetSymbol, SymbolValue;
    SetKids(b, s, ps[0].name, SymbolValue(b, ov, ps[0]));
    if AddSymbol(b, s, ov, ps[0]).Good? { AddedSymbol(b, s, ov, ps[0]); }
  }

  lemma AllOrRest(b: Tree, u: Tree, ov: Tree, ps: seq<Prop>)
    requires ps != [] && SymbolFits(b, ov, ps[0])
    requires forall i :: 0 <= i < |ps| ==> (SymbolFits(b, ov, ps[i]) <==> SymbolFits(u, ov, ps[i]))
    ensures (forall i :: 0 <= i < |ps| ==> SymbolFits(b, ov, ps[i])) <==>
      forall i :: 0 <= i < |ps[1..]| ==> SymbolFits(u, ov, ps[1..][i])
  {
    hide SymbolFits;
    assert forall i :: 0 <= i < |ps[1..]| ==> ps[1..][i] == ps[i + 1];
    if forall i :: 0 <= i < |ps[1..]| ==> SymbolFits(u, ov, ps[1..][i]) {
      forall i | 0 <= i < |ps| ensures SymbolFits(b, ov, ps[i]) { if i > 0 { assert ps[1..][i - 1] == ps[i]; } }
    }
  }

  lemma AddedSymbol(b: Tree, s: nat, ov: Tree, p: Prop)
    requires s < |b.kids| && AddSymbol(b, s, ov, p).Good?
    ensures AddSymbol(b, s, ov, p).value == SetSymbol(b, s, p.name, SymbolValue(b, ov, p))
  {
    hide TargetOf, SetSymbol, ParseSymbol, SymbolPath, TargetText, FragmentOf;
  }

  /** Adding symbols changes nothing but those properties of the node that holds them. */
  lemma {:induction false} AddSymbolsFrame(b: Tree, s: nat, ov: Tree, ps: seq<Prop>, p: IndexPath, name: bytes)
    requires s < |b.kids| && AddSymbols(b, s, ov, ps).Good? && Has(b, p)
    requires p == [s] ==> forall i :: 0 <= i < |ps| ==> ps[i].name != name
    ensures var u := AddSymbols(b, s, ov, ps).value;
      SameFrame(b, u) && Has(u, p) && Get(Below(u, p).props, name) == Get(Below(b, p).props, name)
    decreases |ps|
  {
    hide AddSymbol, SetSymbol, SameFrame, Get, Has, Below, SymbolValue, SetAt;
    if ps == [] {
      FrameSelf(b);
    } else {
      var w := SymbolValue(b, ov, ps[0]);
      SymbolStep(b, s, ov, ps);
      var u := SetSymbol(b, s, ps[0].name, w);
      SetFrame(b, s, ps[0].name, w);
      SetAtPath(b, s, ps[0].name, w, p, name);
      AddSymbolsFrame(u, s, ov, ps[1..], p, name);
      FrameTwice(b, u, AddSymbols(b, s, ov, ps).value);
    }
  }

  /** Symbols of an overlay change a tree only in the node that holds symbols, which is made in front of the other
      children when there is none; without symbols there is no change. */
  lemma UpdateFrame(b: Tree, ov: Tree, p: IndexPath, name: bytes)
    requires UpdateSymbols(b, ov).Good? && Has(b, p)
    requires HasSymbols(ov) && p == [FindKid(b.kids, SYMBOLS, 0)] ==>
      forall i :: 0 <= i < |SymbolsIn(ov)| ==> SymbolsIn(ov)[i].name != name
    ensures !HasSymbols(ov) ==> UpdateSymbols(b, ov) == Good(b)
    ensures HasSymbols(ov) ==>
      var u, q := UpdateSymbols(b, ov).value,
        if p == [] || exists i :: 0 <= i < |b.kids| && Matches(b.kids[i].name, SYMBOLS) then p else [p[0] + 1] + p[1..];
      && Has(u, q) && Get(Below(u, q).props, name) == Get(Below(b, p).props, name)
      && (q != p ==> |u.kids| == |b.kids| + 1 && u.kids[0].name == SYMBOLS)
      && (q == p && p != [] ==> |u.kids| == |b.kids|)
  {
    hide AddSymbols, SameFrame, Get, Has, Below, FindKid, Matches;
    if HasSymbols(ov) {
      var b1 := WithSymbols(b);
      var s, q := FindKid(b1.kids, SYMBOLS, 0), UpdateKept(b, p);
      WithKidFinds(b.kids, SYMBOLS);
      SymbolsNodeFirst(b);
      OneMore(b, p);
      if FindKid(b.kids, SYMBOLS, 0) == |b.kids| && p != [] { assert q[0] == p[0] + 1 && s == 0; }
      assert q == [s] ==> p == [FindKid(b.kids, SYMBOLS, 0)];
      AddSymbolsFrame(b1, s, ov, SymbolsIn(ov), q, name);
      FrameKids(b1, UpdateSymbols(b, ov).value);
    }
  }

  lemma SymbolsNodeFirst(b: Tree)
    ensures FindKid(b.kids, SYMBOLS, 0) < |b.kids| <==>
      exists i :: 0 <= i < |b.kids| && Matches(b.kids[i].name, SYMBOLS)
  {
    hide FindKid, Matches;
    FindKidFirst(b.kids, SYMBOLS, 0);
  }

  /** A node is where it was when a child is put in front of the others, but for that one step. */
  lemma OneMore(b: Tree, p: IndexPath)
    requires Has(b, p)
    ensures var q := UpdateKept(b, p); Has(WithSymbols(b), q) && Below(WithSymbols(b), q).props == Below(b, p).props
  {
    hide FindKid;
    if p != [] && FindKid(b.kids, SYMBOLS, 0) == |b.kids| { assert ([p[0] + 1] + p[1..])[1..] == p[1..]; }
  }

  lemma FrameKids(t: Tree, u: Tree)
    requires SameFrame(t, u)
    ensures |t.kids| == |u.kids| && forall i :: 0 <= i < |t.kids| ==> t.kids[i].name == u.kids[i].name
  {
    forall i | 0 <= i < |t.kids| ensures t.kids[i].name == u.kids[i].name { assert SameFrame(t.kids[i], u.kids[i]); }
  }

  lemma SetAtPath(b: Tree, s: nat, name: bytes, w: bytes, p: IndexPath, other: bytes)
    requires s < |b.kids| && Has(b, p)
    ensures var u := SetSymbol(b, s, name, w);
      && Has(u, p)
      && (p != [s] || other != name ==> Get(Below(u, p).props, other) == Get(Below(b, p).props, other))
  {
    hide SetAt, Get, Has, Below, Put;
    OneDown(b, s);
    var n := b.kids[s];
    PutPropsAt(b, [s], SetAt(n.props, name, w), p);
    if p == [s] { GetSet(n.props, name, w, other); }
  }

  lemma {:induction false} FrameTwice(t: Tree, u: Tree, w: Tree)
    requires SameFrame(t, u) && SameFrame(u, w)
    ensures SameFrame(t, w)
    decreases t
  {
    forall i | 0 <= i < |t.kids| ensures SameFrame(t.kids[i], w.kids[i]) {
      FrameTwice(t.kids[i], u.kids[i], w.kids[i]);
    }
  }
}
