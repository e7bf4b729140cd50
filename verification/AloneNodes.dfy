/** Nodes of an overlay that are merged on their own, and found under their own names. */
module AloneNodes {
  import opened Bytes
  import opened Trees
  import opened FdtRo
  import opened Grafts
  import opened IndexPaths
  import opened Merge
  import opened NamePaths

  /** Two names, neither of which answers to the other. */
  predicate Strangers(a: bytes, b: bytes) {
    !Matches(a, b) && !Matches(b, a)
  }

  /** No sibling on the way down to an overlay node answers to its name, nor does it answer to theirs. */
  predicate Alone(o: Tree, js: IndexPath)
    requires Has(o, js)
    decreases |js|
  {
    js == [] || (AloneKid(o.kids, js[0]) && Alone(o.kids[js[0]], js[1..]))
  }

  predicate AloneKid(os: seq<Tree>, j: nat)
    requires j < |os|
  {
    forall b :: 0 <= b < |os| && b != j ==> Strangers(os[b].name, os[j].name)
  }

  /** Of two names that a name answers to, one answers to the other. */
  lemma OneOfBoth(n: bytes, a: bytes, b: bytes)
    requires Matches(n, a) && Matches(n, b)
    ensures Matches(a, b) || Matches(b, a)
  {
    if |a| < |b| {
      assert a == b[..|a|] && b[|a|] == n[|a|];
    } else {
      assert b == a[..|b|];
      if |b| < |a| { assert a[|b|] == n[|b|]; }
    }
  }

  /** A child that no further child of the overlay answers for stays as it is, and is found as before. */
  lemma {:induction false} StaysFound(ks: seq<Tree>, os: seq<Tree>, s: bytes, p: IndexPath) returns (i: nat)
    requires FindKid(ks, s, 0) < |ks| && forall b :: 0 <= b < |os| ==> Strangers(os[b].name, s)
    requires Has(ks[FindKid(ks, s, 0)], p)
    ensures var rs := MergeKids(ks, os); i < |rs| && i == FindKid(rs, s, 0) && rs[i] == ks[FindKid(ks, s, 0)]
    ensures KidKept(ks, os, FindKid(ks, s, 0), p) == (i, p)
    decreases os
  {
    hide FindKid, MergeKid, MergeNode, Matches, KidStep, Becomes, Has;
    if os == [] {
      i := FindKid(ks, s, 0);
    } else {
      FindOther(ks, os[0], s);
      StepOver(ks, os[0], s, p);
      i := StaysFound(MergeKid(ks, os[0]), os[1..], s, p);
    }
  }

  lemma StepOver(ks: seq<Tree>, o: Tree, s: bytes, p: IndexPath)
    requires Strangers(o.name, s) && FindKid(ks, s, 0) < |ks| && Has(ks[FindKid(ks, s, 0)], p)
    ensures var x := if FindKid(ks, o.name, 0) < |ks| then 0 else 1;
      KidStep(ks, o, FindKid(ks, s, 0), p) == (x + FindKid(ks, s, 0), p)
  {
    hide FindKid, MergeKid, MergeNode, Matches, Becomes, Has, MergeKept;
    var i := FindKid(ks, s, 0);
    FindKidHere(ks, s);
    FindKidHere(ks, o.name);
    if FindKid(ks, o.name, 0) == i { OneOfBoth(ks[i].name, o.name, s); }
  }

  /** Merging a child of another name changes neither what answers to a name first, nor whether anything does. */
  lemma FindOther(ks: seq<Tree>, o: Tree, s: bytes)
    requires Strangers(o.name, s)
    ensures var rs, i := MergeKid(ks, o), FindKid(ks, s, 0);
      var x := if FindKid(ks, o.name, 0) < |ks| then 0 else 1;
      FindKid(rs, s, 0) == x + i && |rs| == x + |ks| && (i < |ks| ==> rs[x + i] == ks[i])
  {
    hide MergeKid, MergeNode, Matches, FindKid;
    var rs, i := MergeKid(ks, o), FindKid(ks, s, 0);
    var x := if FindKid(ks, o.name, 0) < |ks| then 0 else 1;
    MergeKidNames(ks, o);
    FindKidFirst(ks, s, 0);
    forall n | 0 <= n < x + i ensures !Matches(rs[n].name, s) {
      if n >= x { assert rs[x + (n - x)].name == ks[n - x].name; }
    }
    if i < |ks| {
      FindKidHere(ks, s);
      if Matches(ks[i].name, o.name) { OneOfBoth(ks[i].name, o.name, s); }
      assert rs[x + i].name == ks[i].name;
      FindKidIs(rs, s, 0, x + i);
    } else {
      NoKid(rs, s);
    }
  }

  /** What an overlay node is merged into: the first child of the base that answers to its name, or a new one. */
  function SeatKid(ks: seq<Tree>, name: bytes): Tree {
    var f := FindKid(ks, name, 0);
    if f < |ks| then ks[f] else Node(name, [], [])
  }

  function Seat(t: Tree, o: Tree, js: IndexPath): Tree
    requires Has(o, js)
    decreases |js|
  {
    if js == [] then t else Seat(SeatKid(t.kids, o.kids[js[0]].name), o.kids[js[0]], js[1..])
  }

  /** A child of the overlay that is alone is merged into its seat, and is the first that answers to its name. */
  lemma {:induction false} KidFound(ks: seq<Tree>, os: seq<Tree>, j: nat, js: IndexPath) returns (i: nat)
    requires j < |os| && AloneKid(os, j) && Has(os[j], js)
    ensures var rs := MergeKids(ks, os);
      i < |rs| && i == FindKid(rs, os[j].name, 0) && rs[i] == MergeNode(SeatKid(ks, os[j].name), os[j])
    ensures KidLands(ks, os, j, js) == (i, Lands(SeatKid(ks, os[j].name), os[j], js))
    decreases os
  {
    hide FindKid, MergeKid, MergeNode, Matches, KidLandsNow, KidKept, Lands, Landed, Becomes, Has, SeatKid;
    var s, rest := os[j].name, os[1..];
    var ks1 := MergeKid(ks, os[0]);
    assert forall b :: 0 <= b < |rest| ==> rest[b] == os[b + 1];
    if j == 0 {
      FindMerged(ks, os[0]);
      LandsInSeat(ks, os[0], js);
      i := StaysFound(ks1, rest, s, Lands(SeatKid(ks, s), os[0], js).p);
    } else {
      FindOther(ks, os[0], s);
      SeatOther(ks, os[0], s);
      i := KidFound(ks1, rest, j - 1, js);
    }
  }

  lemma LandsInSeat(ks: seq<Tree>, o: Tree, js: IndexPath)
    requires Has(o, js)
    ensures var f, r := FindKid(ks, o.name, 0), Lands(SeatKid(ks, o.name), o, js);
      && KidLandsNow(ks, o, js) == (if f < |ks| then f else 0, r) && Has(MergeNode(SeatKid(ks, o.name), o), r.p)
  {
    hide FindKid, MergeNode, Has, Below, Names, Lands, Answers;
  }

  lemma SeatOther(ks: seq<Tree>, o: Tree, s: bytes)
    requires Strangers(o.name, s)
    ensures SeatKid(MergeKid(ks, o), s) == SeatKid(ks, s)
  {
    hide FindKid, MergeNode, MergeKid, Matches;
    FindOther(ks, o, s);
  }

  /** A child that was just merged is the first that answers to its name. */
  lemma FindMerged(ks: seq<Tree>, o: Tree)
    ensures var rs, i := MergeKid(ks, o), FindKid(MergeKid(ks, o), o.name, 0);
      i < |rs| && rs[i] == MergeNode(SeatKid(ks, o.name), o)
      && i == if FindKid(ks, o.name, 0) < |ks| then FindKid(ks, o.name, 0) else 0
  {
    hide MergeNode, MergeKid, FindKid, Matches;
    var f, rs := FindKid(ks, o.name, 0), MergeKid(ks, o);
    MergeKidNames(ks, o);
    if f < |ks| {
      FindKidFirst(ks, o.name, 0);
      FindKidHere(ks, o.name);
      forall n | 0 <= n < |ks| ensures rs[n].name == ks[n].name { assert rs[0 + n].name == ks[n].name; }
      FindKidIs(rs, o.name, 0, f);
    } else {
      MatchesItself(o.name);
      FindKidIs(rs, o.name, 0, 0);
    }
  }

  lemma MatchesItself(n: bytes)
    ensures Matches(n, n)
  {
  }

  /** A node of an overlay that is alone is found under its own names in the node that the overlay was merged into,
      and nothing but it is merged into what stood there. */
  lemma {:induction false} AloneFound(t: Tree, o: Tree, js: IndexPath)
    requires Has(o, js) && Alone(o, js)
    ensures var m, r := MergeNode(t, o), Lands(t, o, js);
      && Has(m, r.p) && Answers(Names(m, r.p), Names(o, js)) && Clear(m, r.p, Names(o, js))
      && r.x == Seat(t, o, js) && Below(m, r.p) == MergeNode(r.x, Below(o, js))
    decreases |js|
  {
    hide FindKid, MergeKids, MergeProps, Matches, AloneKid, Answers, KidLands, Landed, SeatKid;
    if js == [] {
      AnswersSelf([]);
    } else {
      var m, j, name := MergeNode(t, o), js[0], o.kids[js[0]].name;
      var i := KidFound(t.kids, o.kids, j, js[1..]);
      AloneFound(SeatKid(t.kids, name), o.kids[j], js[1..]);
      var q := Lands(SeatKid(t.kids, name), o.kids[j], js[1..]).p;
      assert ([i] + q)[1..] == q && Names(o, js)[1..] == Names(o.kids[j], js[1..]) && Names(o, js)[0] == name;
      FindKidFirst(m.kids, name, 0);
      FindKidHere(m.kids, name);
      AnswersNext(m, [i] + q, Names(o, js));
    }
  }
}
