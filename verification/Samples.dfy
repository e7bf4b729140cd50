/** Small blobs written out byte by byte, as section 5 of the Devicetree Specification v0.4 lays them out. */
module Samples {
  import opened Bytes
  import opened Strings
  import opened Trees
  import opened Tokens
  import opened Lexer
  import opened Walk
  import opened Views
  import opened Decode
  import opened FdtRoPath
  import opened Formats

  /** A cell has its most significant byte first. */
  lemma CellBytes()
    ensures Word(0x0102_0304) == [1, 2, 3, 4] && Cell([1, 2, 3, 4]) == 0x0102_0304
    ensures Word(0xd00d_feed) == [0xd0, 0x0d, 0xfe, 0xed] && Word(16) == [0, 0, 0, 16]
  {
    LowWord(0x0102_0304, 1, 2, 3, 4);
    LowWord(0xd00d_feed, 0xd0, 0x0d, 0xfe, 0xed);
    LowWord(16, 0, 0, 0, 16);
  }

  lemma LowWord(w: u32, a: byte, b: byte, c: byte, d: byte)
    requires w == a as int * 0x100_0000 + b as int * 0x1_0000 + c as int * 0x100 + d as int
    ensures Word(w) == [a, b, c, d]
  {
    WordOfCell([a, b, c, d]);
  }

  /** A reserve entry is the address and the size, eight bytes each. */
  lemma EntryBytes()
    ensures RsvBytes(Rsv(0x1_0000, 0x203)) == [0, 0, 0, 0, 0, 1, 0, 0, 0, 0, 0, 0, 0, 0, 2, 3]
  {
    EightBytes([0, 0, 0, 0, 0, 1, 0, 0], 0x1_0000);
    EightBytes([0, 0, 0, 0, 0, 0, 2, 3], 0x203);
  }

  lemma EightBytes(s: bytes, w: nat)
    requires |s| == 8 && w < TWO32 && s[..4] == [0, 0, 0, 0] && Cell(s[4..]) == w
    ensures BigEndian(w, 8) == s
  {
    hide BigEndian, Number;
    var a := s[4..];
    CellIsNumber(a);
    BigEndianOfNumber(s);
    HighZeros(s);
  }

  lemma HighZeros(s: bytes)
    requires |s| == 8 && s[..4] == [0, 0, 0, 0]
    ensures Number(s) == Number(s[4..])
  {
    hide Number;
    var a := s[4..];
    ZeroHigh(s[..4], a[..0]);
    assert s[..4] + a[..0] == s[..4] && a[..0] == [];
    ZeroHigh(s[..4], a);
    assert s == s[..4] + a;
  }

  lemma {:induction false} ZeroHigh(z: bytes, a: bytes)
    requires z == [0, 0, 0, 0]
    ensures Number(z + a) == Number(a)
    decreases |a|
  {
    hide Number;
    if a == [] {
      assert z + a == z && z[..3] == [0, 0, 0] && z[..3][..2] == [0, 0] && z[..3][..2][..1] == [0];
      assert z[..3][..2][..1][..0] == [];
      NumberMore(z);
      NumberMore(z[..3]);
      NumberMore(z[..3][..2]);
      NumberMore(z[..3][..2][..1]);
      NumberOfNone();
    } else {
      var b := a[..|a| - 1];
      assert (z + a)[..|z + a| - 1] == z + b;
      NumberMore(z + a);
      NumberMore(a);
      ZeroHigh(z, b);
    }
  }

  /** A structure block: a root with one property, an FDT_NOP, and a child. */
  function Sample(): bytes {
    [0, 0, 0, 1, 0, 0, 0, 0]
    + ([0, 0, 0, 3, 0, 0, 0, 1, 0, 0, 0, 2, 7, 0, 0, 0]
       + ([0, 0, 0, 4]
          + ([0, 0, 0, 1, 97, 98, 64, 48, 0, 0, 0, 0]
             + ([0, 0, 0, 2]
                + ([0, 0, 0, 2]
                   + [0, 0, 0, 9])))))
  }

  /** Its strings block: the names `x` and `reg`. */
  const SAMPLE_STRINGS: bytes := [120, 0, 114, 101, 103, 0]

  function SampleTree(): Tree {
    Node([], [Prop(Ascii("reg"), [7])], [Node(Ascii("ab@0"), [], [])])
  }

  function SampleTokens(): seq<Token> {
    [TBegin([], [0, 0, 0]), TProp(2, [7], [0, 0, 0]), TNop, TBegin([97, 98, 64, 48], [0, 0, 0]), TEnd, TEnd, TFin]
  }

  /** Those bytes are a tree, and they are no other. */
  lemma SampleReads(t: Tree)
    ensures Decodes(Sample(), SAMPLE_STRINGS, t) <==> t == SampleTree()
  {
    hide Ser, Abs, Flatten, Decodes;
    var v := View(Sample(), SampleTokens(), SAMPLE_STRINGS, SampleTree());
    SampleOk();
    ReadingExists(Sample(), SAMPLE_STRINGS, SampleTree());
    if Decodes(Sample(), SAMPLE_STRINGS, t) { OneTree(Sample(), SAMPLE_STRINGS, t, SampleTree()); }
  }

  lemma SampleOk()
    ensures View(Sample(), SampleTokens(), SAMPLE_STRINGS, SampleTree()).Ok()
  {
    hide Ser, Abs, Flatten, HasStr, StrAt;
    SampleSer();
    SampleEvents();
    SampleNames();
    assert Aligned(4) && Aligned(8);
  }

  lemma SampleNames()
    ensures HasStr(SAMPLE_STRINGS, 2) && StrAt(SAMPLE_STRINGS, 2) == Ascii("reg")
  {
    var s := SAMPLE_STRINGS;
    NulAtIs(s, 2, 5);
    assert s[2..5] == [114, 101, 103];
  }

  lemma SampleSer()
    ensures Ser(SampleTokens()) == Sample()
  {
    hide TokBytes, Ser;
    var ts := SampleTokens();
    SerSeven(ts);
    SampleWords();
    SampleNodes();
    SampleProp();
  }

  lemma SampleWords()
    ensures TokBytes(TNop) == [0, 0, 0, 4] && TokBytes(TEnd) == [0, 0, 0, 2] && TokBytes(TFin) == [0, 0, 0, 9]
  {
    hide Word;
    LowWord(2, 0, 0, 0, 2);
    LowWord(4, 0, 0, 0, 4);
    LowWord(9, 0, 0, 0, 9);
  }

  lemma SampleNodes()
    ensures TokBytes(TBegin([], [0, 0, 0])) == [0, 0, 0, 1, 0, 0, 0, 0]
    ensures TokBytes(TBegin([97, 98, 64, 48], [0, 0, 0])) == [0, 0, 0, 1, 97, 98, 64, 48, 0, 0, 0, 0]
  {
    hide Word;
    LowWord(1, 0, 0, 0, 1);
  }

  lemma SampleProp()
    ensures TokBytes(TProp(2, [7], [0, 0, 0])) == [0, 0, 0, 3, 0, 0, 0, 1, 0, 0, 0, 2, 7, 0, 0, 0]
  {
    hide Word;
    LowWord(1, 0, 0, 0, 1);
    LowWord(2, 0, 0, 0, 2);
    LowWord(3, 0, 0, 0, 3);
  }

  lemma SerSeven(ts: seq<Token>)
    requires |ts| == 7
    ensures Ser(ts) == TokBytes(ts[0]) + (TokBytes(ts[1]) + (TokBytes(ts[2]) + (TokBytes(ts[3])
      + (TokBytes(ts[4]) + (TokBytes(ts[5]) + TokBytes(ts[6]))))))
  {
    hide TokBytes;
    assert ts[6..][1..] == [] && Ser([]) == [];
    assert TokBytes(ts[6]) + [] == TokBytes(ts[6]);
    assert forall i :: 0 <= i < 6 ==> ts[i..][1..] == ts[i + 1..];
    assert ts[0..] == ts;
    assert forall i :: 0 <= i < 7 ==> Ser(ts[i..]) == TokBytes(ts[i]) + Ser(ts[i..][1..]);
  }

  lemma SampleEvents()
    ensures Abs(SampleTokens(), SAMPLE_STRINGS) == Flatten(SampleTree()) + [Fin]
  {
    hide StrAt, HasStr, Abs, Flatten;
    SampleNames();
    AbsSeven(SampleTokens(), SAMPLE_STRINGS);
    var c := Node([97, 98, 64, 48], [], []);
    assert Ascii("ab@0") == c.name;
    FlattenLeaf(c);
    FlattenOne([], Prop(Ascii("reg"), [7]), c);
  }

  lemma FlattenLeaf(c: Tree)
    requires c.props == [] && c.kids == []
    ensures Flatten(c) == [Open(c.name), Close]
  {
  }

  lemma FlattenOne(name: bytes, p: Prop, c: Tree)
    ensures Flatten(Node(name, [p], [c])) == [Open(name), Attr(p)] + Flatten(c) + [Close]
  {
    hide Flatten;
    FlattenIs(name, [p], [c]);
    assert Forest([c]) == Flatten(c) + Forest([c][1..]) && [c][1..] == [] && Flatten(c) + [] == Flatten(c);
    assert Attrs([p]) == [Attr(p)];
  }

  lemma FlattenIs(name: bytes, ps: seq<Prop>, ks: seq<Tree>)
    ensures Flatten(Node(name, ps, ks)) == [Open(name)] + Attrs(ps) + Forest(ks) + [Close]
  {
  }

  lemma AbsSeven(ts: seq<Token>, tab: bytes)
    requires |ts| == 7
    ensures Abs(ts, tab) == Evts(ts[0], tab) + (Evts(ts[1], tab) + (Evts(ts[2], tab) + (Evts(ts[3], tab)
      + (Evts(ts[4], tab) + (Evts(ts[5], tab) + Evts(ts[6], tab))))))
  {
    hide Evts;
    assert ts[6..][1..] == [] && Abs([], tab) == [];
    assert Evts(ts[6], tab) + [] == Evts(ts[6], tab);
    assert forall i :: 0 <= i < 6 ==> ts[i..][1..] == ts[i + 1..];
    assert ts[0..] == ts;
    assert forall i :: 0 <= i < 7 ==> Abs(ts[i..], tab) == Evts(ts[i], tab) + Abs(ts[i..][1..], tab);
  }

  /** The path of a node is printed with a slash before each name; that of the root is a slash. */
  lemma PathsPrinted()
    ensures var t := Node([], [], [Node(Ascii("soc"), [], [Node(Ascii("uart@0"), [], [])])]);
      var r := Loc(Top, t);
      && Printed(r) == Ascii("/")
      && Printed(Child(r, 0)) == Ascii("/soc")
      && Printed(Child(Child(r, 0), 0)) == Ascii("/soc/uart@0")
  {
    hide Full, Child;
    var u := Node(Ascii("uart@0"), [], []);
    var c := Node(Ascii("soc"), [], [u]);
    var t := Node([], [], [c]);
    var r := Loc(Top, t);
    FullTop(r);
    KidIs(r, 0);
    KidIs(Child(r, 0), 0);
    assert Full(Child(r, 0)) == Ascii("/soc/");
    assert Full(Child(Child(r, 0), 0)) == Ascii("/soc/uart@0/");
  }

  lemma FullTop(l: Loc)
    requires l == Loc(Top, l.node) && l.node.name == []
    ensures Full(l) == [SLASH]
  {
  }

  lemma KidIs(l: Loc, i: nat)
    requires i < |l.node.kids|
    ensures Child(l, i).node == l.node.kids[i] && Full(Child(l, i)) == Full(l) + l.node.kids[i].name + [SLASH]
  {
    ChildParent(l, i);
  }
}
