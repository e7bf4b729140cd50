/** The token layer between the bytes of the structure block and the tree. */
module Tokens {
  import opened Bytes
  import opened Strings
  import opened Trees

  const FDT_BEGIN_NODE: u32 := 1
  const FDT_END_NODE: u32 := 2
  const FDT_PROP: u32 := 3
  const FDT_NOP: u32 := 4
  const FDT_END: u32 := 9

  /** One lexical element; `pad` is what fills it up to a multiple of four, whatever its bytes are. */
  datatype Token =
    | TBegin(name: bytes, pad: bytes)
    | TEnd
    | TProp(nameoff: u32, value: bytes, pad: bytes)
    | TNop
    | TFin

  predicate WfTok(t: Token) {
    match t
    case TBegin(name, pad) => NUL !in name && |pad| < 4 && Aligned(|name| + 1 + |pad|)
    case TProp(_, value, pad) => |value| < TWO31 && |pad| < 4 && Aligned(|value| + |pad|)
    case _ => true
  }

  predicate Wf(ts: seq<Token>) {
    forall k :: 0 <= k < |ts| ==> WfTok(ts[k])
  }

  lemma WfAt(ts: seq<Token>, k: nat)
    requires Wf(ts) && k < |ts|
    ensures WfTok(ts[k])
  {
  }

  function TagOf(t: Token): u32 {
    match t
    case TBegin(_, _) => FDT_BEGIN_NODE
    case TEnd => FDT_END_NODE
    case TProp(_, _, _) => FDT_PROP
    case TNop => FDT_NOP
    case TFin => FDT_END
  }

  /** What follows the tag of a token. */
  function Body(t: Token): bytes {
    match t
    case TBegin(name, pad) => name + [NUL] + pad
    case TProp(nameoff, value, pad) => Word(U32(|value|)) + Word(nameoff) + value + pad
    case _ => []
  }

  function BodyLen(t: Token): nat {
    match t
    case TBegin(name, pad) => |name| + 1 + |pad|
    case TProp(_, value, pad) => 8 + |value| + |pad|
    case _ => 0
  }

  function TokBytes(t: Token): (r: bytes)
    ensures |r| == 4 + BodyLen(t)
  {
    Word(TagOf(t)) + Body(t)
  }

  lemma TokAligned(t: Token)
    requires WfTok(t)
    ensures Aligned(|TokBytes(t)|)
  {
    match t
    case TProp(_, value, pad) => AlignedSum(12, |value| + |pad|);
    case TBegin(name, pad) => AlignedSum(4, |name| + 1 + |pad|);
    case _ =>
  }

  /** The bytes of a token list. */
  function Ser(ts: seq<Token>): bytes {
    if ts == [] then [] else TokBytes(ts[0]) + Ser(ts[1..])
  }

  lemma {:induction false} SerAppend(a: seq<Token>, b: seq<Token>)
    ensures Ser(a + b) == Ser(a) + Ser(b)
  {
    if a == [] {
      assert a + b == b;
    } else {
      assert (a + b)[1..] == a[1..] + b;
      SerAppend(a[1..], b);
    }
  }

  lemma SerOne(t: Token)
    ensures Ser([t]) == TokBytes(t)
  {
    assert [t][1..] == [];
  }

  /** The offset of token `k` in the structure block. */
  function Off(ts: seq<Token>, k: nat): nat
    requires k <= |ts|
  {
    |Ser(ts[..k])|
  }

  lemma {:induction false} OffAligned(ts: seq<Token>, k: nat)
    requires Wf(ts) && k <= |ts|
    ensures Aligned(Off(ts, k))
  {
    hide Ser, TokBytes, Off, Wf, WfTok;
    if k == 0 {
      OffZero(ts);
    } else {
      hide Aligned;
      OffStep(ts, k - 1);
      OffAligned(ts, k - 1);
      WfAt(ts, k - 1);
      TokAligned(ts[k - 1]);
      AlignedSum(Off(ts, k - 1), |TokBytes(ts[k - 1])|);
    }
  }

  lemma OffZero(ts: seq<Token>)
    ensures Off(ts, 0) == 0
  {
    assert ts[..0] == [];
  }

  lemma OffStep(ts: seq<Token>, k: nat)
    requires k < |ts|
    ensures Off(ts, k + 1) == Off(ts, k) + |TokBytes(ts[k])|
  {
    var a, b := ts[..k], [ts[k]];
    assert ts[..k + 1] == a + b;
    SerAppend(a, b);
    SerOne(ts[k]);
  }

  lemma {:induction false} OffMono(ts: seq<Token>, i: nat, j: nat)
    requires i <= j <= |ts|
    ensures Off(ts, i) + 4 * (j - i) <= Off(ts, j)
    decreases j - i
  {
    if i < j {
      OffStep(ts, i);
      OffMono(ts, i + 1, j);
    }
  }

  /** Where a token sits in the serialised list. */
  lemma SerAt(ts: seq<Token>, k: nat)
    requires k < |ts|
    ensures Off(ts, k) + |TokBytes(ts[k])| <= |Ser(ts)|
    ensures Ser(ts)[..Off(ts, k)] == Ser(ts[..k])
    ensures Ser(ts)[Off(ts, k)..Off(ts, k) + |TokBytes(ts[k])|] == TokBytes(ts[k])
  {
    SerSplit(ts, k);
    var a, t, b := Ser(ts[..k]), TokBytes(ts[k]), Ser(ts[k..][1..]);
    assert Ser(ts) == a + (t + b);
    Middle(a, t, b);
  }

  lemma Middle<T>(a: seq<T>, t: seq<T>, b: seq<T>)
    ensures (a + (t + b))[..|a|] == a
    ensures (a + (t + b))[|a|..|a| + |t|] == t
    ensures (a + (t + b))[|a| + |t|..] == b
  {
  }

  lemma SerSplit(ts: seq<Token>, k: nat)
    requires k <= |ts|
    ensures Ser(ts) == Ser(ts[..k]) + Ser(ts[k..])
    ensures Off(ts, k) <= |Ser(ts)|
  {
    var a, b := ts[..k], ts[k..];
    assert ts == a + b;
    SerAppend(a, b);
  }

  /** The event a token stands for; names come from the strings block `tab`. */
  function Evts(t: Token, tab: bytes): seq<Evt> {
    match t
    case TBegin(name, _) => [Open(name)]
    case TEnd => [Close]
    case TProp(nameoff, value, _) => [Attr(Prop(StrAt(tab, nameoff), value))]
    case TNop => []
    case TFin => [Fin]
  }

  /** The events of a token list: FDT_NOP disappears, names are resolved. */
  function Abs(ts: seq<Token>, tab: bytes): seq<Evt> {
    if ts == [] then [] else Evts(ts[0], tab) + Abs(ts[1..], tab)
  }

  lemma {:induction false} AbsAppend(a: seq<Token>, b: seq<Token>, tab: bytes)
    ensures Abs(a + b, tab) == Abs(a, tab) + Abs(b, tab)
  {
    if a == [] {
      assert a + b == b;
    } else {
      assert (a + b)[1..] == a[1..] + b;
      AbsAppend(a[1..], b, tab);
    }
  }

  lemma AbsOne(t: Token, tab: bytes)
    ensures Abs([t], tab) == Evts(t, tab)
  {
    assert [t][1..] == [];
  }

  lemma AbsSplit(ts: seq<Token>, k: nat, tab: bytes)
    requires k <= |ts|
    ensures Abs(ts, tab) == Abs(ts[..k], tab) + Abs(ts[k..], tab)
  {
    var a, b := ts[..k], ts[k..];
    assert ts == a + b;
    AbsAppend(a, b, tab);
  }

  lemma AbsStep(ts: seq<Token>, k: nat, tab: bytes)
    requires k < |ts|
    ensures Abs(ts[k..], tab) == Evts(ts[k], tab) + Abs(ts[k + 1..], tab)
    ensures Abs(ts[..k + 1], tab) == Abs(ts[..k], tab) + Evts(ts[k], tab)
  {
    var a, b := ts[..k], [ts[k]];
    assert ts[k..][1..] == ts[k + 1..];
    assert ts[..k + 1] == a + b;
    assert b[1..] == [];
    AbsAppend(a, b, tab);
  }

  /** Every property name is a terminated string of the strings block. */
  predicate Named(ts: seq<Token>, tab: bytes) {
    forall k :: 0 <= k < |ts| && ts[k].TProp? ==> HasStr(tab, ts[k].nameoff)
  }

  lemma {:induction false} AbsGrow(ts: seq<Token>, tab: bytes, x: bytes)
    requires Named(ts, tab)
    ensures Named(ts, tab + x) && Abs(ts, tab + x) == Abs(ts, tab)
  {
    forall k | 0 <= k < |ts| && ts[k].TProp? ensures HasStr(tab + x, ts[k].nameoff) {
      StrAtAppend(tab, x, ts[k].nameoff);
    }
    if ts != [] {
      if ts[0].TProp? { StrAtAppend(tab, x, ts[0].nameoff); }
      AbsGrow(ts[1..], tab, x);
    }
  }

  lemma AbsTail(ts: seq<Token>, k: nat, tab: bytes)
    requires k < |ts|
    ensures Abs(ts[..k + 1], tab) == Evts(ts[0], tab) + Abs(ts[1..][..k], tab)
    ensures Abs(ts[k + 1..], tab) == Abs(ts[1..][k..], tab)
  {
    assert ts[..k + 1][1..] == ts[1..][..k];
    assert ts[k + 1..] == ts[1..][k..];
  }

  /** A split of the events is a split of the tokens. */
  lemma {:induction false} AbsCut(ts: seq<Token>, tab: bytes, x: seq<Evt>, y: seq<Evt>) returns (k: nat)
    requires Abs(ts, tab) == x + y
    ensures k <= |ts| && Abs(ts[..k], tab) == x && Abs(ts[k..], tab) == y
    ensures k > 0 ==> !ts[k - 1].TNop?
  {
    if x == [] {
      k := 0;
      assert ts[..0] == [] && ts[0..] == ts;
    } else if ts[0].TNop? {
      var j := AbsCut(ts[1..], tab, x, y);
      AbsTail(ts, j, tab);
      assert j > 0 by { assert Abs(ts[1..][..j], tab) == x; }
      k := j + 1;
    } else {
      assert Abs(ts[1..], tab) == x[1..] + y by {
        assert (x + y)[1..] == x[1..] + y;
      }
      var j := AbsCut(ts[1..], tab, x[1..], y);
      AbsTail(ts, j, tab);
      assert Evts(ts[0], tab) == [x[0]];
      k := j + 1;
    }
  }
}
