/** Paths as lists of names: where they lead, and what the nodes on the way are called. */
module NamePaths {
  import opened Bytes
  import opened Trees
  import opened Walk
  import opened FdtRo
  import opened FdtRoPath
  import opened Fixups
  import opened Grafts
  import opened IndexPaths
  import opened Merge
  import opened Symbols

  /** The components of a path. */
  function Comps(s: bytes): seq<bytes>
    decreases |s|
  {
    if s == [] then []
    else if s[0] == SLASH then Comps(s[1..])
    else [s[..SlashAt(s)]] + Comps(s[SlashAt(s)..])
  }

  lemma {:induction false} CompsJoined(a: bytes, b: bytes)
    requires b == [] || b[0] == SLASH
    ensures Comps(a + b) == Comps(a) + Comps(b)
    decreases |a|
  {
    if a == [] {
      assert a + b == b;
    } else if a[0] == SLASH {
      assert (a + b)[1..] == a[1..] + b;
      CompsJoined(a[1..], b);
    } else {
      SlashInPart(a, b);
      var q := SlashAt(a);
      assert (a + b)[..q] == a[..q] && (a + b)[q..] == a[q..] + b;
      CompsJoined(a[q..], b);
      assert [a[..q]] + (Comps(a[q..]) + Comps(b)) == ([a[..q]] + Comps(a[q..])) + Comps(b);
    }
  }

  /** No earlier sibling answers to a component on the way down. */
  predicate Clear(t: Tree, p: IndexPath, cs: seq<bytes>)
    requires Has(t, p) && |cs| == |p|
    decreases |p|
  {
    p == [] ||
      ((forall i :: 0 <= i < p[0] ==> !Matches(t.kids[i].name, cs[0])) && Clear(t.kids[p[0]], p[1..], cs[1..]))
  }

  lemma AnswersNext(t: Tree, p: IndexPath, cs: seq<bytes>)
    requires Has(t, p) && p != [] && cs != []
    ensures Answers(Names(t, p), cs) <==>
      Matches(t.kids[p[0]].name, cs[0]) && Answers(Names(t.kids[p[0]], p[1..]), cs[1..])
  {
    hide Matches;
    var ns := Names(t, p);
    assert ns[0] == t.kids[p[0]].name && ns[1..] == Names(t.kids[p[0]], p[1..]);
    if Answers(ns, cs) {
      assert forall i :: 0 <= i < |ns[1..]| ==> ns[1..][i] == ns[i + 1] && cs[1..][i] == cs[i + 1];
    } else if |ns| == |cs| {
      var i :| 0 <= i < |ns| && !Matches(ns[i], cs[i]);
      if i > 0 { assert ns[1..][i - 1] == ns[i] && cs[1..][i - 1] == cs[i]; }
    }
  }

  /** A path leads to a node exactly when the names on the way answer to its components, and no earlier sibling does. */
  lemma {:induction false} FollowClear(t: Tree, s: bytes, p: IndexPath)
    requires Has(t, p)
    ensures Follow(t, s) == Got(p) <==> Answers(Names(t, p), Comps(s)) && Clear(t, p, Comps(s))
    decreases |s|
  {
    hide Matches, FindKid, Answers;
    if s == [] {
      AnswersNone(t, p);
    } else if s[0] == SLASH {
      FollowClear(t, s[1..], p);
    } else {
      var q := SlashAt(s);
      var c, i := s[..q], FindKid(t.kids, s[..q], 0);
      FindKidFirst(t.kids, c, 0);
      assert Comps(s)[0] == c && Comps(s)[1..] == Comps(s[q..]);
      if p == [] {
        AnswersSize(Names(t, p), Comps(s));
        FollowFront(t, s);
      } else {
        AnswersNext(t, p, Comps(s));
        FollowFront(t, s);
        if p[0] == i {
          FollowClear(t.kids[i], s[q..], p[1..]);
          if Follow(t.kids[i], s[q..]).Got? { FrontSame(i, Follow(t.kids[i], s[q..]).p, p); }
        } else {
          KidNotFirst(t.kids, c, i, p[0]);
        }
      }
    }
  }

  lemma FrontSame(i: nat, r: IndexPath, p: IndexPath)
    requires p != [] && p[0] == i
    ensures [i] + r == p <==> r == p[1..]
  {
    assert p == [i] + p[1..];
    assert ([i] + r)[1..] == r;
  }

  lemma KidNotFirst(ks: seq<Tree>, c: bytes, i: nat, j: nat)
    requires i == FindKid(ks, c, 0) && j < |ks| && j != i && forall k :: 0 <= k < i ==> !Matches(ks[k].name, c)
    ensures Matches(ks[j].name, c) ==> exists k :: 0 <= k < j && Matches(ks[k].name, c)
  {
    hide Matches, FindKid;
    if Matches(ks[j].name, c) { assert i < j; FindKidHere(ks, c); }
  }

  lemma FindKidHere(ks: seq<Tree>, c: bytes)
    ensures var i := FindKid(ks, c, 0); i < |ks| ==> Matches(ks[i].name, c)
  {
  }

  lemma AnswersSize(ns: seq<bytes>, cs: seq<bytes>)
    ensures Answers(ns, cs) ==> |ns| == |cs|
  {
  }

  lemma AnswersNone(t: Tree, p: IndexPath)
    requires Has(t, p)
    ensures Answers(Names(t, p), []) <==> p == []
  {
  }

  /** The first step of following a path. */
  lemma FollowFront(t: Tree, s: bytes)
    requires s != [] && s[0] != SLASH
    ensures var q, i := SlashAt(s), FindKid(t.kids, s[..SlashAt(s)], 0);
      Follow(t, s) == if i == |t.kids| then Lost
        else match Follow(t.kids[i], s[q..]) case Lost => Lost case Got(p) => Got([i] + p)
  {
  }

  /** Answering carries over. */
  lemma AnswersOn(a: seq<bytes>, b: seq<bytes>, c: seq<bytes>)
    requires Answers(a, b) && Answers(b, c)
    ensures Answers(a, c)
  {
    hide Matches;
    forall i | 0 <= i < |a| ensures Matches(a[i], c[i]) { MatchesOn(a[i], b[i], c[i]); }
  }

  lemma MatchesOn(a: bytes, b: bytes, c: bytes)
    requires Matches(a, b) && Matches(b, c)
    ensures Matches(a, c)
  {
    if b != c { assert b[|c|] == AT_SIGN && b[|c|] in b; }
  }

  lemma AnswersSelf(a: seq<bytes>)
    ensures Answers(a, a)
  {
  }

  lemma AnswersBoth(a: seq<bytes>, b: seq<bytes>, c: seq<bytes>, d: seq<bytes>)
    requires Answers(a, b) && Answers(c, d)
    ensures Answers(a + c, b + d)
  {
    hide Matches;
  }

  /** The names on the way down to a location. */
  function LocNames(l: Loc): seq<bytes>
    decreases l.ctx
  {
    if l.ctx.Top? then [] else LocNames(Parent(l)) + [l.node.name]
  }

  lemma {:induction false} LocNamesAt(l: Loc, p: IndexPath)
    requires Has(l.node, p)
    ensures LocNames(At(l, p)) == LocNames(l) + Names(l.node, p)
    decreases |p|
  {
    if p != [] {
      var c := Child(l, p[0]);
      ChildParent(l, p[0]);
      assert LocNames(c) == LocNames(l) + [c.node.name];
      LocNamesAt(c, p[1..]);
      assert (LocNames(l) + [c.node.name]) + Names(c.node, p[1..]) == LocNames(l) + Names(l.node, p);
    }
  }

  /** A path that is printed has the names for its components. */
  lemma {:induction false} PathComps(l: Loc)
    requires Nameable(l)
    ensures Comps(PathOf(l)) == LocNames(l)
    decreases l.ctx
  {
    if l.ctx.In? {
      hide LocNames;
      var n := l.node.name;
      PathComps(Parent(l));
      CompsJoined(PathOf(Parent(l)), [SLASH] + n);
      OneComp(n);
      LocNamesStep(l);
    } else {
      assert LocNames(l) == [] && PathOf(l) == [];
    }
  }

  lemma LocNamesStep(l: Loc)
    requires l.ctx.In?
    ensures LocNames(l) == LocNames(Parent(l)) + [l.node.name]
  {
  }

  lemma OneComp(n: bytes)
    requires n != [] && SLASH !in n
    ensures Comps([SLASH] + n) == [n]
  {
    assert ([SLASH] + n)[1..] == n && n + [] == n;
    assert n[0] in n;
    SlashAtIs(n, []);
    assert n[..|n|] == n && n[|n|..] == [];
    assert Comps([]) == [];
  }

  lemma PrintedComps(l: Loc)
    requires Nameable(l)
    ensures Comps(Printed(l)) == LocNames(l)
  {
    hide Full;
    PrintedPath(l);
    PathComps(l);
    if l.ctx.Top? {
      assert [SLASH][1..] == [];
      assert Comps([]) == [];
    }
  }

  lemma NoNames(l: Loc)
    requires l.ctx.Top?
    ensures LocNames(l) == []
  {
  }

  /** Resolving leads to the location at a path exactly when following leads to the path. */
  lemma FollowOnce(t: Tree, s: bytes, q: IndexPath)
    requires Has(t, q)
    ensures Resolve(Loc(Top, t), s) == To(At(Loc(Top, t), q)) <==> Follow(t, s) == Got(q)
  {
    hide Follow, Resolve, Has, At;
    FollowIs(Loc(Top, t), s);
    if Follow(t, s).Got? && At(Loc(Top, t), Follow(t, s).p) == At(Loc(Top, t), q) {
      SamePath(Loc(Top, t), Follow(t, s).p, q);
    }
  }

  /** A location is at one path only. */
  lemma {:induction false} SamePath(l: Loc, p: IndexPath, q: IndexPath)
    requires Has(l.node, p) && Has(l.node, q) && At(l, p) == At(l, q)
    ensures p == q
    decreases |p|
  {
    AtDepth(l, p);
    AtDepth(l, q);
    if p != [] {
      AtThrough(l, p);
      AtThrough(l, q);
      assert |Child(l, p[0]).ctx.left| == p[0] && |Child(l, q[0]).ctx.left| == q[0];
      SamePath(Child(l, p[0]), p[1..], q[1..]);
    }
  }

  lemma {:induction false} AtDepth(l: Loc, p: IndexPath)
    requires Has(l.node, p)
    ensures Depth(At(l, p).ctx) == Depth(l.ctx) + |p|
    decreases |p|
  {
    if p != [] { AtDepth(Child(l, p[0]), p[1..]); }
  }

  /** The way to a node leads through the first child. */
  lemma AtThrough(l: Loc, p: IndexPath)
    requires Has(l.node, p) && p != []
    ensures Depth(At(l, p).ctx) == Depth(l.ctx) + |p| && Up(At(l, p), |p| - 1) == Child(l, p[0])
  {
    AtDepth(l, p);
    UpAt(Child(l, p[0]), p[1..]);
  }

  lemma {:induction false} UpAt(l: Loc, p: IndexPath)
    requires Has(l.node, p)
    ensures Depth(At(l, p).ctx) == Depth(l.ctx) + |p| && Up(At(l, p), |p|) == l
    decreases |p|
  {
    AtDepth(l, p);
    if p != [] {
      var c := Child(l, p[0]);
      UpAt(c, p[1..]);
      UpUp(At(l, p), |p| - 1, 1);
      ChildParent(l, p[0]);
      UpOne(c);
    }
  }
}
