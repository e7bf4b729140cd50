/** Local references, listed as the bytes of an overlay list them. */
module LocalFixups {
  import opened Bytes
  import opened CString
  import opened Trees
  import opened Walk
  import opened Preorder
  import opened FdtRo
  import opened FdtRoPhandle
  import opened IndexPaths
  import opened Merge
  import opened Renumber
  import opened References

  /** A list of offsets, one big-endian cell each. */
  function Listed(offs: seq<u32>): (w: bytes)
    ensures |w| == 4 * |offs|
  {
    if offs == [] then [] else Word(offs[0]) + Listed(offs[1..])
  }

  /** Reading such a list gives the offsets back. */
  lemma {:induction false} CellsOfListed(offs: seq<u32>)
    ensures Cells(Listed(offs)) == offs
  {
    hide Word, Cell;
    if offs != [] {
      var w, r := Listed(offs), Listed(offs[1..]);
      CellsOfListed(offs[1..]);
      CellOfWord(offs[0]);
      assert w[0..4] == Word(offs[0]);
      forall i | 0 < i < |offs| ensures Be32(w, 4 * i) == offs[i] {
        assert Cells(r)[i - 1] == offs[1..][i - 1] == offs[i];
        assert w[4 * i..4 * i + 4] == r[4 * (i - 1)..4 * (i - 1) + 4];
      }
    }
  }

  /** Every value of whole cells is such a list. */
  lemma {:induction false} ListedOfCells(w: bytes)
    requires |w| % 4 == 0
    ensures Listed(Cells(w)) == w
    decreases |w|
  {
    hide Word, Cell;
    if w != [] {
      var r := w[4..];
      ListedOfCells(r);
      WordOfCell(w[0..4]);
      assert Cells(w)[1..] == Cells(r) by {
        forall i | 0 <= i < |Cells(r)| ensures Cells(w)[1..][i] == Cells(r)[i] {
          assert w[4 * (i + 1)..4 * (i + 1) + 4] == r[4 * i..4 * i + 4];
        }
      }
      assert w == w[0..4] + r;
    } else {
      assert Cells(w) == [];
    }
  }

  /** Node `js` of the fixups is about node `p` of the tree: each name on the way is looked up. */
  predicate About(t: Tree, fix: Tree, js: IndexPath, p: IndexPath)
    decreases |js|
  {
    && |js| == |p|
    && (js == [] ||
      (&& js[0] < |fix.kids| && p[0] < |t.kids| && FindKid(t.kids, fix.kids[js[0]].name, 0) == p[0]
       && About(t.kids[p[0]], fix.kids[js[0]], js[1..], p[1..])))
  }

  lemma {:induction false} AboutHas(t: Tree, fix: Tree, js: IndexPath, p: IndexPath)
    requires About(t, fix, js, p)
    ensures Has(t, p) && Has(fix, js)
    decreases |js|
  {
    hide FindKid;
    if js != [] { AboutHas(t.kids[p[0]], fix.kids[js[0]], js[1..], p[1..]); }
  }

  /** Property `a` of fixup node `js` lists cells of property `name` of node `p`. */
  predicate ListedBy(t: Tree, fix: Tree, p: IndexPath, name: bytes, js: IndexPath, a: nat) {
    About(t, fix, js, p) && Has(fix, js) && a < |Below(fix, js).props| && Below(fix, js).props[a].name == name
  }

  /** No fixup is about the property. */
  ghost predicate Unlisted(t: Tree, fix: Tree, p: IndexPath, name: bytes) {
    forall js: IndexPath, a: nat :: !ListedBy(t, fix, p, name, js, a)
  }

  /** One fixup property is about it, and no other. */
  ghost predicate ListedOnce(t: Tree, fix: Tree, p: IndexPath, name: bytes, js: IndexPath, a: nat) {
    && ListedBy(t, fix, p, name, js, a)
    && forall ms: IndexPath, b: nat :: ListedBy(t, fix, p, name, ms, b) ==> ms == js && b == a
  }

  lemma {:induction false} HitsNone(fs: seq<Prop>, name: bytes)
    requires forall i :: 0 <= i < |fs| ==> fs[i].name != name
    ensures Hits(fs, name) == []
  {
    if fs != [] { HitsNone(fs[1..], name); }
  }

  lemma {:induction false} HitsOnce(fs: seq<Prop>, name: bytes, a: nat)
    requires a < |fs| && fs[a].name == name && forall i :: 0 <= i < |fs| && i != a ==> fs[i].name != name
    ensures Hits(fs, name) == Cells(fs[a].value)
  {
    hide Cells;
    if a == 0 {
      HitsNone(fs[1..], name);
      assert Cells(fs[0].value) + [] == Cells(fs[0].value);
    } else {
      HitsOnce(fs[1..], name, a - 1);
      assert [] + Cells(fs[a].value) == Cells(fs[a].value);
    }
  }

  /** A fixup below child `j` of the fixups. */
  lemma ListedDown(t: Tree, fix: Tree, p: IndexPath, name: bytes, j: nat, js: IndexPath, a: nat)
    requires p != [] && Has(t, p) && j < |fix.kids| && FindKid(t.kids, fix.kids[j].name, 0) == p[0]
    ensures ListedBy(t, fix, p, name, [j] + js, a) <==> ListedBy(t.kids[p[0]], fix.kids[j], p[1..], name, js, a)
  {
    hide FindKid;
    assert ([j] + js)[1..] == js;
  }

  lemma {:induction false} RefsAtNone(t: Tree, fix: Tree, p: IndexPath, name: bytes)
    requires Has(t, p) && Unlisted(t, fix, p, name)
    ensures RefsAt(t, fix, p, name) == []
    decreases |p|, 0
  {
    hide FindKid;
    if p == [] {
      forall i | 0 <= i < |fix.props| ensures fix.props[i].name != name { assert !ListedBy(t, fix, p, name, [], i); }
      HitsNone(fix.props, name);
    } else {
      forall i | 0 <= i < |fix.kids| && FindKid(t.kids, fix.kids[i].name, 0) == p[0]
        ensures RefsAt(t.kids[p[0]], fix.kids[i], p[1..], name) == []
      {
        UnlistedDown(t, fix, p, name, i);
        RefsAtNone(t.kids[p[0]], fix.kids[i], p[1..], name);
      }
      RefsInNone(t.kids, fix.kids, p, name);
    }
  }

  lemma UnlistedDown(t: Tree, fix: Tree, p: IndexPath, name: bytes, i: nat)
    requires p != [] && Has(t, p) && i < |fix.kids| && FindKid(t.kids, fix.kids[i].name, 0) == p[0]
    requires Unlisted(t, fix, p, name)
    ensures Unlisted(t.kids[p[0]], fix.kids[i], p[1..], name)
  {
    hide ListedBy, FindKid;
    forall js: IndexPath, a: nat ensures !ListedBy(t.kids[p[0]], fix.kids[i], p[1..], name, js, a) {
      ListedDown(t, fix, p, name, i, js, a);
      assert !ListedBy(t, fix, p, name, [i] + js, a);
    }
  }

  lemma {:induction false} RefsInNone(ks: seq<Tree>, fs: seq<Tree>, p: IndexPath, name: bytes)
    requires p != [] && p[0] < |ks| && Has(ks[p[0]], p[1..])
    requires forall i :: 0 <= i < |fs| && FindKid(ks, fs[i].name, 0) == p[0] ==>
      RefsAt(ks[p[0]], fs[i], p[1..], name) == []
    ensures RefsIn(ks, fs, p, name) == []
    decreases |fs|
  {
    hide RefsAt, FindKid;
    if fs != [] {
      assert forall i :: 0 <= i < |fs[1..]| ==> fs[1..][i] == fs[i + 1];
      RefsInNone(ks, fs[1..], p, name);
    }
  }

  lemma {:induction false} RefsInOnce(ks: seq<Tree>, fs: seq<Tree>, p: IndexPath, name: bytes, j: nat)
    requires p != [] && p[0] < |ks| && Has(ks[p[0]], p[1..]) && j < |fs| && FindKid(ks, fs[j].name, 0) == p[0]
    requires forall i :: 0 <= i < |fs| && i != j && FindKid(ks, fs[i].name, 0) == p[0] ==>
      RefsAt(ks[p[0]], fs[i], p[1..], name) == []
    ensures RefsIn(ks, fs, p, name) == RefsAt(ks[p[0]], fs[j], p[1..], name)
    decreases |fs|
  {
    hide RefsAt, FindKid;
    assert forall i :: 0 <= i < |fs[1..]| ==> fs[1..][i] == fs[i + 1];
    var x := RefsAt(ks[p[0]], fs[j], p[1..], name);
    if j == 0 {
      RefsInNone(ks, fs[1..], p, name);
      assert x + [] == x;
    } else {
      RefsInOnce(ks, fs[1..], p, name, j - 1);
      assert [] + x == x;
    }
  }

  /** The cells that a fixup property lists, when no other lists cells of the same property. */
  lemma {:induction false} RefsAtOnce(t: Tree, fix: Tree, p: IndexPath, name: bytes, js: IndexPath, a: nat)
    requires Has(t, p) && ListedOnce(t, fix, p, name, js, a)
    ensures RefsAt(t, fix, p, name) == Cells(Below(fix, js).props[a].value)
    decreases |p|
  {
    hide FindKid, Cells;
    if p == [] {
      forall i | 0 <= i < |fix.props| && i != a ensures fix.props[i].name != name {
        assert ListedBy(t, fix, p, name, [], i) ==> i == a;
      }
      HitsOnce(fix.props, name, a);
    } else {
      var j, k := js[0], p[0];
      assert js == [j] + js[1..];
      OnceDown(t, fix, p, name, js, a);
      RefsAtOnce(t.kids[k], fix.kids[j], p[1..], name, js[1..], a);
      forall i | 0 <= i < |fix.kids| && i != j && FindKid(t.kids, fix.kids[i].name, 0) == k
        ensures RefsAt(t.kids[k], fix.kids[i], p[1..], name) == []
      {
        OthersUnlisted(t, fix, p, name, js, a, i);
        RefsAtNone(t.kids[k], fix.kids[i], p[1..], name);
      }
      RefsInOnce(t.kids, fix.kids, p, name, j);
    }
  }

  lemma OnceDown(t: Tree, fix: Tree, p: IndexPath, name: bytes, js: IndexPath, a: nat)
    requires p != [] && Has(t, p) && ListedOnce(t, fix, p, name, js, a)
    ensures js != [] && js[0] < |fix.kids| && ListedOnce(t.kids[p[0]], fix.kids[js[0]], p[1..], name, js[1..], a)
  {
    hide FindKid;
    var j, r := js[0], js[1..];
    assert js == [j] + r;
    ListedDown(t, fix, p, name, j, r, a);
    forall ms: IndexPath, b: nat | ListedBy(t.kids[p[0]], fix.kids[j], p[1..], name, ms, b) ensures ms == r && b == a {
      ListedDown(t, fix, p, name, j, ms, b);
      assert ListedBy(t, fix, p, name, [j] + ms, b);
      assert ([j] + ms)[1..] == ms;
    }
  }

  lemma OthersUnlisted(t: Tree, fix: Tree, p: IndexPath, name: bytes, js: IndexPath, a: nat, i: nat)
    requires p != [] && Has(t, p) && ListedOnce(t, fix, p, name, js, a)
    requires i < |fix.kids| && i != js[0] && FindKid(t.kids, fix.kids[i].name, 0) == p[0]
    ensures Unlisted(t.kids[p[0]], fix.kids[i], p[1..], name)
  {
    hide FindKid, About;
    forall ms: IndexPath, b: nat ensures !ListedBy(t.kids[p[0]], fix.kids[i], p[1..], name, ms, b) {
      ListedDown(t, fix, p, name, i, ms, b);
      assert ListedBy(t, fix, p, name, [i] + ms, b) ==> [i] + ms == js;
    }
  }

  /** Whatever is listed for a property is listed by a fixup property. */
  lemma {:induction false} HitsOnly(fs: seq<Prop>, name: bytes, o: u32) returns (a: nat)
    requires o in Hits(fs, name)
    ensures a < |fs| && fs[a].name == name && o in Cells(fs[a].value)
  {
    hide Cells;
    if fs[0].name == name && o in Cells(fs[0].value) {
      a := 0;
    } else {
      a := HitsOnly(fs[1..], name, o);
      a := a + 1;
    }
  }

  lemma {:induction false} RefsAtOnly(t: Tree, fix: Tree, p: IndexPath, name: bytes, o: u32)
    returns (js: IndexPath, a: nat)
    requires Has(t, p) && o in RefsAt(t, fix, p, name)
    ensures ListedBy(t, fix, p, name, js, a) && o in Cells(Below(fix, js).props[a].value)
    decreases |p|
  {
    hide FindKid, Cells;
    if p == [] {
      js := [];
      a := HitsOnly(fix.props, name, o);
    } else {
      var j := RefsInOnly(t.kids, fix.kids, p, name, o);
      js, a := RefsAtOnly(t.kids[p[0]], fix.kids[j], p[1..], name, o);
      ListedDown(t, fix, p, name, j, js, a);
      js := [j] + js;
    }
  }

  lemma {:induction false} RefsInOnly(ks: seq<Tree>, fs: seq<Tree>, p: IndexPath, name: bytes, o: u32) returns (j: nat)
    requires p != [] && p[0] < |ks| && Has(ks[p[0]], p[1..]) && o in RefsIn(ks, fs, p, name)
    ensures j < |fs| && FindKid(ks, fs[j].name, 0) == p[0] && o in RefsAt(ks[p[0]], fs[j], p[1..], name)
    decreases |fs|
  {
    hide FindKid, RefsAt;
    if FindKid(ks, fs[0].name, 0) == p[0] && o in RefsAt(ks[p[0]], fs[0], p[1..], name) {
      j := 0;
    } else {
      j := RefsInOnly(ks, fs[1..], p, name, o);
      j := j + 1;
    }
  }
}
