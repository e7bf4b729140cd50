/** The tree in a blob, read off its bytes alone. */
module Decode {
  import opened Bytes
  import opened Strings
  import opened Trees
  import opened Tokens
  import opened Lexer
  import opened Walk
  import opened Views

  /** The events of the structure bytes from `off` to the first FDT_END, or to the first thing that is not well
      formed. */
  function EventsAt(s: bytes, tab: bytes, off: nat): seq<Evt>
    decreases |s| - off
  {
    var (tag, next) := TagAt(s, off);
    if next <= off || next > |s| then []
    else if tag == FDT_BEGIN_NODE then [Open(StrAt(s, off + 4))] + EventsAt(s, tab, next)
    else if tag == FDT_END_NODE then [Close] + EventsAt(s, tab, next)
    else if tag == FDT_PROP then
      if IsProp(s, tab, off)
      then [Attr(Prop(StrAt(tab, Be32(s, off + 8)), s[off + 12..off + 12 + Be32(s, off + 4)]))] + EventsAt(s, tab, next)
      else []
    else if tag == FDT_NOP then EventsAt(s, tab, next)
    else [Fin]
  }

  /** A property whose value lies in the block and whose name is a string of the strings block. */
  predicate IsProp(s: bytes, tab: bytes, off: nat) {
    && off + 12 <= |s| && Be32(s, off + 4) < TWO31 && off + 12 + Be32(s, off + 4) <= |s|
    && HasStr(tab, Be32(s, off + 8))
  }

  /** The bytes hold the tree `t`. */
  predicate Decodes(s: bytes, tab: bytes, t: Tree) {
    |s| < TWO31 && EventsAt(s, tab, 0) == Flatten(t) + [Fin] && NodeCheck(s, 0) >= 0
  }

  /** The bytes of one token, decoded. */
  lemma DecodeToken(v: View, k: nat)
    requires v.Ok() && k < |v.toks|
    ensures EventsAt(v.s, v.tab, Off(v.toks, k)) ==
      if v.toks[k].TFin? then [Fin] else Evts(v.toks[k], v.tab) + EventsAt(v.s, v.tab, Off(v.toks, k + 1))
  {
    hide Ser, Off, TagAt, Abs, Flatten, Named, Wf, Cell, Word, TokBytes, Body, Aligned, HasStr, StrAt;
    TokenCheck(v, k);
    BytesAt(v.s, v.toks, k);
    WfAt(v.toks, k);
    var o, t, w := Off(v.toks, k), v.toks[k], TokBytes(v.toks[k]);
    if t.TBegin? {
      BeginTail(t.name, t.pad);
      NameCells(v.s, o, w, t.name, t.pad);
      OccursIsStrAt(v.s, o + 4, t.name);
    } else if t.TProp? {
      PropTail(t.nameoff, t.value, t.pad);
      PropCells(v.s, o, w, Word(|t.value|), Word(t.nameoff), t.value, t.pad);
      CellOfWord(|t.value|);
      CellOfWord(t.nameoff);
      NamedAt(v.toks, v.tab, k);
    }
  }

  lemma NamedAt(ts: seq<Token>, tab: bytes, k: nat)
    requires Named(ts, tab) && k < |ts| && ts[k].TProp?
    ensures HasStr(tab, ts[k].nameoff)
  {
  }

  lemma FirstIn(es: seq<Evt>)
    ensures |es| > 1 ==> es[0] in es[..|es| - 1]
  {
    if |es| > 1 { assert es[..|es| - 1][0] == es[0]; }
  }

  lemma {:induction false} DecodeRest(v: View, k: nat, es: seq<Evt>)
    requires v.Ok() && Rest(v, k, es) && Fin !in es[..|es| - 1]
    ensures EventsAt(v.s, v.tab, Off(v.toks, k)) == es
    decreases |v.toks| - k
  {
    hide Ser, Off, TagAt, Abs, Flatten, Named, Wf, EventsAt;
    FirstIn(es);
    DecodeToken(v, k);
    TokenEvent(v, k, es);
    if v.toks[k].TFin? {
      assert es[0] == Fin;
    } else {
      RestStep(v, k, es);
      if v.toks[k].TNop? {
        DecodeRest(v, k + 1, es);
      } else {
        assert es[1..][..|es| - 2] == es[..|es| - 1][1..];
        DecodeRest(v, k + 1, es[1..]);
      }
    }
  }

  lemma {:induction false} NoFin(t: Tree)
    ensures Fin !in Flatten(t)
    decreases t, 1
  {
    NoFins(t.kids);
  }

  lemma {:induction false} NoFins(ks: seq<Tree>)
    ensures Fin !in Forest(ks)
    decreases ks, 0
  {
    if ks != [] {
      NoFin(ks[0]);
      NoFins(ks[1..]);
    }
  }

  /** A reading that is right decodes to its tree. */
  lemma OkDecodes(v: View)
    requires v.Ok()
    ensures Decodes(v.s, v.tab, v.tree)
  {
    hide Ser, Off, TagAt, Abs, Named, Wf, EventsAt;
    var es := Flatten(v.tree) + [Fin];
    NoFin(v.tree);
    assert v.toks[0..] == v.toks;
    assert es[..|es| - 1] == Flatten(v.tree);
    DecodeRest(v, 0, es);
    OffZero(v.toks);
    TokenCheck(v, 0);
  }

  /** A property list or a forest is followed by something else. */
  lemma {:induction false} AttrsSame(a: seq<Prop>, b: seq<Prop>, x: seq<Evt>, y: seq<Evt>)
    requires Attrs(a) + x == Attrs(b) + y && x != [] && y != [] && !x[0].Attr? && !y[0].Attr?
    ensures a == b && x == y
  {
    var l, r := Attrs(a) + x, Attrs(b) + y;
    assert l[0] == if a == [] then x[0] else Attr(a[0]);
    assert r[0] == if b == [] then y[0] else Attr(b[0]);
    if a == [] {
      assert l == x && r == y;
    } else {
      assert l[0] == Attr(a[0]) && r[0] == Attr(b[0]);
      assert l[1..] == Attrs(a[1..]) + x && r[1..] == Attrs(b[1..]) + y;
      AttrsSame(a[1..], b[1..], x, y);
    }
  }

  /** Different trees have different events. */
  lemma {:induction false} FlattenSame(a: Tree, b: Tree, x: seq<Evt>, y: seq<Evt>)
    requires Flatten(a) + x == Flatten(b) + y
    ensures a == b && x == y
    decreases a, 1
  {
    hide Forest, Attrs;
    var p, q := Forest(a.kids) + ([Close] + x), Forest(b.kids) + ([Close] + y);
    var l, r := Attrs(a.props) + p, Attrs(b.props) + q;
    assert Flatten(a) + x == [Open(a.name)] + l;
    assert Flatten(b) + y == [Open(b.name)] + r;
    assert ([Open(a.name)] + l)[0] == Open(a.name) && ([Open(b.name)] + r)[0] == Open(b.name);
    assert ([Open(a.name)] + l)[1..] == l && ([Open(b.name)] + r)[1..] == r;
    FirstOfForest(a.kids, [Close] + x);
    FirstOfForest(b.kids, [Close] + y);
    AttrsSame(a.props, b.props, p, q);
    ForestSame(a.kids, b.kids, [Close] + x, [Close] + y);
    assert ([Close] + x)[1..] == x && ([Close] + y)[1..] == y;
  }

  lemma FirstOfForest(ks: seq<Tree>, x: seq<Evt>)
    requires x != [] && x[0].Close?
    ensures var f := Forest(ks) + x; f != [] && f[0] == if ks == [] then Close else Open(ks[0].name)
  {
    hide Flatten;
    if ks != [] { ForestHead(ks, x); }
  }

  lemma {:induction false} ForestSame(a: seq<Tree>, b: seq<Tree>, x: seq<Evt>, y: seq<Evt>)
    requires Forest(a) + x == Forest(b) + y && x != [] && y != [] && x[0].Close? && y[0].Close?
    ensures a == b && x == y
    decreases a, 0
  {
    hide Flatten;
    FirstOfForest(a, x);
    FirstOfForest(b, y);
    if a == [] {
      assert Forest(a) + x == x && Forest(b) + y == y;
    } else {
      ForestHead(a, x);
      ForestHead(b, y);
      FlattenSame(a[0], b[0], Forest(a[1..]) + x, Forest(b[1..]) + y);
      ForestSame(a[1..], b[1..], x, y);
    }
  }

  /** The bytes hold at most one tree. */
  lemma OneTree(s: bytes, tab: bytes, t: Tree, u: Tree)
    requires Decodes(s, tab, t) && Decodes(s, tab, u)
    ensures t == u
  {
    hide Flatten, EventsAt;
    FlattenSame(t, u, [Fin], [Fin]);
  }

  /** So the tree of a reading is a fact about the bytes, whichever tokens witness it. */
  lemma SameBytesSameTree(v: View, w: View)
    requires v.Ok() && w.Ok() && v.s == w.s && v.tab == w.tab
    ensures v.tree == w.tree
  {
    hide View.Ok, Decodes;
    OkDecodes(v);
    OkDecodes(w);
    OneTree(v.s, v.tab, v.tree, w.tree);
  }

  /** The token whose bytes stand at `off`. */
  lemma TokenHere(s: bytes, tab: bytes, off: nat) returns (t: Token)
    requires Aligned(off) && |s| < TWO31 && EventsAt(s, tab, off) != []
    ensures var next := TagAt(s, off).1;
      && off < next <= |s| && Aligned(next) && WfTok(t) && TokBytes(t) == s[off..next] && Named([t], tab)
      && TagOf(t) == TagAt(s, off).0
      && EventsAt(s, tab, off) == Evts(t, tab) + if t.TFin? then [] else EventsAt(s, tab, next)
  {
    hide NulAt, Align4, Aligned, HasStr, Word, Cell;
    var (tag, next) := TagAt(s, off);
    WordOfCell(s[off..off + 4]);
    if tag == FDT_BEGIN_NODE {
      t := NodeHere(s, off, next);
    } else if tag == FDT_PROP {
      var len := Be32(s, off + 4);
      Align4Aligned(off + 12 + len);
      t := PropHere(s, off, len, next);
    } else {
      t := if tag == FDT_END_NODE then TEnd else if tag == FDT_NOP then TNop else TFin;
      AlignedFour(off);
      AlignIs(off + 4, off + 4);
      assert s[off..off + 4] + [] == s[off..off + 4];
    }
  }

  lemma NodeHere(s: bytes, off: nat, next: nat) returns (t: Token)
    requires Aligned(off) && off + 4 <= |s| && Be32(s, off) == FDT_BEGIN_NODE && NulAt(s, off + 4) < |s|
    requires next == Align4(NulAt(s, off + 4) + 1) <= |s|
    ensures t == TBegin(StrAt(s, off + 4), s[NulAt(s, off + 4) + 1..next])
    ensures WfTok(t) && Aligned(next) && TokBytes(t) == s[off..next]
  {
    hide NulAt, Align4, Aligned, Word, Cell, StrAt;
    var nul := NulAt(s, off + 4);
    var name, pad := s[off + 4..nul], s[nul + 1..next];
    assert StrAt(s, off + 4) == name && s[nul] == NUL && NUL !in name by {
      NulAtFirst(s, off + 4);
      StrAtIs(s, off + 4);
    }
    Align4Aligned(nul + 1);
    t := TBegin(name, pad);
    AlignedFour(off);
    AlignedSum(off + 4, |name| + 1 + |pad|);
    WordOfCell(s[off..off + 4]);
    NodeBytes(s, off, nul, next);
  }

  lemma StrAtIs(s: bytes, off: nat)
    requires off < |s|
    ensures StrAt(s, off) == s[off..NulAt(s, off)] && NUL !in s[off..NulAt(s, off)]
  {
    StrAtClean(s, off);
  }

  lemma NodeBytes(s: bytes, off: nat, nul: nat, next: nat)
    requires off + 4 <= nul < next <= |s| && s[nul] == NUL
    ensures s[off..next] == s[off..off + 4] + (s[off + 4..nul] + [NUL] + s[nul + 1..next])
  {
  }

  lemma PropHere(s: bytes, off: nat, len: nat, next: nat) returns (t: Token)
    requires Aligned(off) && off + 12 + len <= |s| && len < TWO31 && Be32(s, off) == FDT_PROP && Be32(s, off + 4) == len
    requires next == Align4(off + 12 + len) <= |s| && Aligned(next)
    ensures t == TProp(Be32(s, off + 8), s[off + 12..off + 12 + len], s[off + 12 + len..next])
    ensures WfTok(t) && TokBytes(t) == s[off..next]
  {
    hide Align4, Aligned, Word, Cell, TokBytes, Body;
    var value, pad := s[off + 12..off + 12 + len], s[off + 12 + len..next];
    t := TProp(Be32(s, off + 8), value, pad);
    AlignedTwelve(off);
    AlignedSum(off + 12, len + |pad|);
    WordOfCell(s[off..off + 4]);
    WordOfCell(s[off + 4..off + 8]);
    WordOfCell(s[off + 8..off + 12]);
    PropTail(t.nameoff, value, pad);
    TwoParts(TokBytes(t), 4);
    FivePieces(s, off, len, next);
  }

  lemma TwoParts(w: bytes, n: nat)
    requires n <= |w|
    ensures w == w[..n] + w[n..]
  {
  }

  lemma FivePieces(s: bytes, off: nat, len: nat, next: nat)
    requires off + 12 + len <= next <= |s|
    ensures s[off..next] ==
      s[off..off + 4] + (s[off + 4..off + 8] + s[off + 8..off + 12] + s[off + 12..off + 12 + len]
                         + s[off + 12 + len..next])
  {
    SliceJoin(s, off + 4, off + 8, off + 12);
    SliceJoin(s, off + 4, off + 12, off + 12 + len);
    SliceJoin(s, off + 4, off + 12 + len, next);
    SliceJoin(s, off, off + 4, next);
  }

  lemma AlignedFour(off: nat)
    requires Aligned(off)
    ensures Aligned(off + 4)
  {
    AlignedSum(off, 4);
  }

  lemma AlignedTwelve(off: nat)
    requires Aligned(off)
    ensures Aligned(off + 12)
  {
    AlignedSum(off, 12);
  }

  /** Bytes that decode are the bytes of a token list. */
  lemma {:induction false} TokensHere(s: bytes, tab: bytes, off: nat) returns (ts: seq<Token>)
    requires Aligned(off) && off <= |s| < TWO31
    requires var es := EventsAt(s, tab, off); es != [] && es[|es| - 1] == Fin
    ensures Wf(ts) && Named(ts, tab) && Abs(ts, tab) == EventsAt(s, tab, off)
    ensures off + |Ser(ts)| <= |s| && Ser(ts) == s[off..off + |Ser(ts)|]
    ensures ts != [] && TagOf(ts[0]) == TagAt(s, off).0
    decreases |s| - off
  {
    hide TagAt, TokBytes, EventsAt, Aligned, WfTok, HasStr, Evts, Ser, Abs, Wf, Named;
    var t := TokenHere(s, tab, off);
    var next := TagAt(s, off).1;
    OneEvent(t, tab);
    if t.TFin? {
      ts := [t];
      assert Evts(t, tab) + [] == Evts(t, tab);
    } else {
      var es, r := EventsAt(s, tab, off), EventsAt(s, tab, next);
      LastStays(Evts(t, tab), r);
      var us := TokensHere(s, tab, next);
      ts := [t] + us;
      OneMore(s, tab, off, next, t, us);
    }
  }

  /** A list of one token. */
  lemma OneEvent(t: Token, tab: bytes)
    ensures |Evts(t, tab)| <= 1 && (!t.TFin? ==> Fin !in Evts(t, tab))
    ensures Abs([t], tab) == Evts(t, tab) && Ser([t]) == TokBytes(t) && (WfTok(t) ==> Wf([t]))
  {
    hide TokBytes, WfTok;
    SerOne(t);
    AbsOne(t, tab);
  }

  /** A token in front of a token list. */
  lemma OneMore(s: bytes, tab: bytes, off: nat, next: nat, t: Token, us: seq<Token>)
    requires off <= next <= |s| && TokBytes(t) == s[off..next] && WfTok(t) && Named([t], tab)
    requires Wf(us) && Named(us, tab) && next + |Ser(us)| <= |s| && Ser(us) == s[next..next + |Ser(us)|]
    ensures var ts := [t] + us;
      && Wf(ts) && Named(ts, tab) && Abs(ts, tab) == Evts(t, tab) + Abs(us, tab)
      && off + |Ser(ts)| <= |s| && Ser(ts) == s[off..off + |Ser(ts)|]
  {
    hide TokBytes, WfTok, Evts, Ser, Abs, Wf, Named;
    var n := |Ser(us)|;
    OneEvent(t, tab);
    SerAppend([t], us);
    AbsAppend([t], us, tab);
    BothFine([t], us, tab);
    SliceJoin(s, off, next, next + n);
  }

  lemma BothFine(a: seq<Token>, b: seq<Token>, tab: bytes)
    requires Wf(a) && Named(a, tab) && Wf(b) && Named(b, tab)
    ensures Wf(a + b) && Named(a + b, tab)
  {
    hide WfTok, HasStr;
  }

  lemma LastStays(a: seq<Evt>, r: seq<Evt>)
    requires |a| <= 1 && a + r != [] && (a + r)[|a + r| - 1] == Fin && Fin !in a
    ensures r != [] && r[|r| - 1] == Fin
  {
    assert r == [] ==> a + r == a;
  }

  /** A tree can be read from the bytes exactly when the bytes decode to it. */
  lemma ReadingExists(s: bytes, tab: bytes, t: Tree)
    ensures Decodes(s, tab, t) <==> exists toks :: View(s, toks, tab, t).Ok()
  {
    hide EventsAt, Flatten, Ser, Abs, Wf, Named;
    if toks :| View(s, toks, tab, t).Ok() {
      OkDecodes(View(s, toks, tab, t));
    }
    if Decodes(s, tab, t) {
      hide View.Ok;
      var toks := TokensHere(s, tab, 0);
      ReadingOk(s, toks, tab, t);
    }
  }

  lemma ReadingOk(s: bytes, toks: seq<Token>, tab: bytes, t: Tree)
    requires Decodes(s, tab, t) && toks != [] && TagOf(toks[0]) == TagAt(s, 0).0
    requires Wf(toks) && Named(toks, tab) && Abs(toks, tab) == EventsAt(s, tab, 0)
    requires |Ser(toks)| <= |s| && Ser(toks) == s[0..|Ser(toks)|]
    ensures View(s, toks, tab, t).Ok()
  {
    hide EventsAt, Flatten, Ser, Abs, Wf, Named, TagAt;
  }
}
