/** Lexing one tag of the structure block, on the bytes a reader may touch. */
module Lexer {
  import opened Bytes
  import opened Strings
  import opened Tokens

  const ERR_NOTFOUND := 1
  const ERR_EXISTS := 2
  const ERR_NOSPACE := 3
  const ERR_BADOFFSET := 4
  const ERR_BADPHANDLE := 6
  const ERR_BADSTATE := 7
  const ERR_TRUNCATED := 8
  const ERR_BADMAGIC := 9
  const ERR_BADVERSION := 10
  const ERR_BADSTRUCTURE := 11
  const ERR_BADLAYOUT := 12
  const ERR_INTERNAL := 13
  const ERR_BADVALUE := 15
  const ERR_BADOVERLAY := 16
  const ERR_NOPHANDLES := 17

  /** What `fdt_next_tag` returns: the tag and the next offset, or FDT_END and a negative error.
      The length cell is added with 32-bit arithmetic, as the code does it. */
  function TagAt(s: bytes, start: int): (u32, int) {
    if start < 0 || start + 4 > |s| then (FDT_END, -ERR_TRUNCATED)
    else
      var tag := Be32(s, start);
      if tag == FDT_BEGIN_NODE then
        var nul := NulAt(s, start + 4);
        if nul == |s| then (FDT_END, -ERR_BADSTRUCTURE) else Extent(s, tag, start, nul + 1 - start)
      else if tag == FDT_PROP then
        if start + 8 > |s| then (FDT_END, -ERR_BADSTRUCTURE)
        else Extent(s, tag, start, U32(12 + Be32(s, start + 4)))
      else if tag == FDT_END_NODE || tag == FDT_NOP || tag == FDT_END then
        Extent(s, tag, start, 4)
      else (FDT_END, -ERR_BADSTRUCTURE)
  }

  function Extent(s: bytes, tag: u32, start: nat, len: nat): (u32, int) {
    if start + len > |s| then (FDT_END, -ERR_BADSTRUCTURE) else (tag, Align4(start + len))
  }

  lemma NextBegin(s: bytes, o: nat, n: nat, pad: nat)
    requires o + 4 + n < |s| && Aligned(o) && Aligned(n + 1 + pad) && pad < 4
    requires Be32(s, o) == FDT_BEGIN_NODE && NulAt(s, o + 4) == o + 4 + n
    ensures TagAt(s, o) == (FDT_BEGIN_NODE, o + 5 + n + pad)
  {
    AlignedSum(o, 4);
    AlignPadded(o + 4, n + 1, pad);
  }

  lemma NextProp(s: bytes, o: nat, len: nat, pad: nat)
    requires o + 12 + len <= |s| && Aligned(o) && Aligned(len + pad) && pad < 4 && len < TWO31
    requires Be32(s, o) == FDT_PROP && Be32(s, o + 4) == len
    ensures TagAt(s, o) == (FDT_PROP, o + 12 + len + pad)
  {
    AlignedSum(o, 12);
    AlignPadded(o + 12, len, pad);
  }

  lemma NextShort(s: bytes, o: nat)
    requires o + 4 <= |s| && Aligned(o)
    requires Be32(s, o) == FDT_END_NODE || Be32(s, o) == FDT_NOP || Be32(s, o) == FDT_END
    ensures TagAt(s, o) == (Be32(s, o), o + 4)
  {
    AlignedSum(o, 4);
    AlignIs(o + 4, o + 4);
  }

  /** A token is lexed as itself wherever its bytes stand. */
  lemma LexTok(s: bytes, o: nat, w: bytes, t: Token)
    requires Aligned(o) && WfTok(t) && w == TokBytes(t)
    requires o + |w| <= |s| && s[o..o + |w|] == w
    ensures TagAt(s, o) == (TagOf(t), o + |w|)
  {
    hide TagAt, Word;
    if t.TBegin? {
      LexBegin(s, o, w, t.name, t.pad);
    } else if t.TProp? {
      LexProp(s, o, w, t.nameoff, t.value, t.pad);
    } else {
      LexShort(s, o, w, TagOf(t));
    }
  }

  lemma LexShort(s: bytes, o: nat, w: bytes, tag: u32)
    requires Aligned(o) && w == Word(tag) + []
    requires tag == FDT_END_NODE || tag == FDT_NOP || tag == FDT_END
    requires o + |w| <= |s| && s[o..o + |w|] == w
    ensures TagAt(s, o) == (tag, o + 4)
  {
    LexTag(s, o, w, tag, []);
    NextShort(s, o);
  }

  lemma LexBegin(s: bytes, o: nat, w: bytes, name: bytes, pad: bytes)
    requires WfTok(TBegin(name, pad)) && Aligned(o)
    requires w == Word(FDT_BEGIN_NODE) + (name + [NUL] + pad)
    requires o + |w| <= |s| && s[o..o + |w|] == w
    ensures TagAt(s, o) == (FDT_BEGIN_NODE, o + 5 + |name| + |pad|)
  {
    hide TagAt, Word, Cell;
    LexTag(s, o, w, FDT_BEGIN_NODE, name + [NUL] + pad);
    NameCells(s, o, w, name, pad);
    NextBegin(s, o, |name|, |pad|);
  }

  lemma LexProp(s: bytes, o: nat, w: bytes, nameoff: u32, value: bytes, pad: bytes)
    requires WfTok(TProp(nameoff, value, pad)) && Aligned(o)
    requires w == Word(FDT_PROP) + (Word(|value|) + Word(nameoff) + value + pad)
    requires o + |w| <= |s| && s[o..o + |w|] == w
    ensures TagAt(s, o) == (FDT_PROP, o + 12 + |value| + |pad|)
  {
    hide TagAt, Word, Cell;
    LexTag(s, o, w, FDT_PROP, Word(|value|) + Word(nameoff) + value + pad);
    PropCells(s, o, w, Word(|value|), Word(nameoff), value, pad);
    CellOfWord(|value|);
    NextProp(s, o, |value|, |pad|);
  }

  lemma LexTag(s: bytes, o: nat, w: bytes, tag: u32, body: bytes)
    requires w == Word(tag) + body && o + |w| <= |s| && s[o..o + |w|] == w
    ensures Be32(s, o) == tag
  {
    assert w[0..4] == Word(tag);
    Sub(s, o, w, 0, 4);
    CellOfWord(tag);
  }

  lemma NameCells(s: bytes, o: nat, w: bytes, name: bytes, pad: bytes)
    requires NUL !in name && |w| == 5 + |name| + |pad| && w[4..] == name + [NUL] + pad
    requires o + |w| <= |s| && s[o..o + |w|] == w
    ensures Occurs(s, o + 4, name)
    ensures NulAt(s, o + 4) == o + 4 + |name|
    ensures s[o + 4..o + 4 + |name|] == name
  {
    assert w[4..5 + |name|] == w[4..][..|name| + 1] == name + [NUL];
    Sub(s, o, w, 4, 5 + |name|);
    OccursIsStrAt(s, o + 4, name);
  }

  lemma PropCells(s: bytes, o: nat, w: bytes, len: bytes, nameoff: bytes, value: bytes, pad: bytes)
    requires |len| == 4 && |nameoff| == 4 && |w| == 12 + |value| + |pad|
    requires w[4..] == len + nameoff + value + pad
    requires o + |w| <= |s| && s[o..o + |w|] == w
    ensures s[o + 4..o + 8] == len && s[o + 8..o + 12] == nameoff
    ensures s[o + 12..o + 12 + |value|] == value
  {
    Slices(w[..4], len, nameoff, value, pad);
    assert w == w[..4] + w[4..];
    Sub(s, o, w, 4, 8);
    Sub(s, o, w, 8, 12);
    Sub(s, o, w, 12, 12 + |value|);
  }

  /** What follows the tag of a property token. */
  lemma PropTail(nameoff: u32, value: bytes, pad: bytes)
    requires |value| < TWO31
    ensures var w := TokBytes(TProp(nameoff, value, pad));
      |w| == 12 + |value| + |pad| && w[..4] == Word(FDT_PROP) && w[4..] == Word(|value|) + Word(nameoff) + value + pad
  {
    hide Word;
  }

  /** What follows the tag of an opening token. */
  lemma BeginTail(name: bytes, pad: bytes)
    ensures var w := TokBytes(TBegin(name, pad)); |w| == 5 + |name| + |pad| && w[4..] == name + [NUL] + pad
  {
    hide Word;
  }

  /** The bytes of token `k` inside anything that starts with the serialised list. */
  lemma BytesAt(s: bytes, ts: seq<Token>, k: nat)
    requires Ser(ts) <= s && k < |ts|
    ensures Off(ts, k + 1) == Off(ts, k) + |TokBytes(ts[k])| <= |Ser(ts)|
    ensures s[Off(ts, k)..Off(ts, k + 1)] == TokBytes(ts[k])
  {
    hide Ser, TokBytes, Off;
    SerAt(ts, k);
    OffStep(ts, k);
    var o, e, w := Off(ts, k), Off(ts, k + 1), Ser(ts);
    assert s[..|w|] == w;
    Sub(s, 0, w, o, e);
  }

  /** Lexing at the offset of token `k` gives token `k` and the offset of the next one. */
  lemma NextTagAt(s: bytes, ts: seq<Token>, k: nat)
    requires Wf(ts) && Ser(ts) <= s && k < |ts|
    ensures TagAt(s, Off(ts, k)) == (TagOf(ts[k]), Off(ts, k + 1))
    ensures Off(ts, k) < Off(ts, k + 1) <= |s|
  {
    hide *;
    BytesAt(s, ts, k);
    OffAligned(ts, k);
    assert WfTok(ts[k]) by { WfAt(ts, k); }
    LexTok(s, Off(ts, k), TokBytes(ts[k]), ts[k]);
  }

  /** The length of the element at `start` if the length cell were not truncated to 32 bits. */
  function TrueLength(s: bytes, start: nat): nat
    requires start + 4 <= |s|
  {
    var tag := Be32(s, start);
    if tag == FDT_BEGIN_NODE then NulAt(s, start + 4) + 1 - start
    else if tag == FDT_PROP && start + 8 <= |s| then 12 + Be32(s, start + 4)
    else 4
  }

  /** The addition at fdt.c:124 wraps for these lengths. */
  predicate Wraps(s: bytes, start: nat) {
    start + 8 <= |s| && Be32(s, start) == FDT_PROP && Be32(s, start + 4) >= 0xFFFF_FFF4
  }

  lemma ExtentAt(s: bytes, tag: u32, start: nat, len: nat)
    requires Extent(s, tag, start, len).1 >= 0
    ensures Aligned(Extent(s, tag, start, len).1)
    ensures start + len <= Extent(s, tag, start, len).1 <= Align4(|s|)
    ensures Aligned(start) && len == 0 ==> Extent(s, tag, start, len).1 == start
  {
    Align4Aligned(start + len);
    Align4Mono(start + len, |s|);
    if Aligned(start) { AlignIs(start, start); }
  }

  /** Every tag before the end is followed by an aligned offset in the block; that offset is past the element
      exactly when the length cell does not wrap, and it moves forward exactly when the length is not 2^32 - 12. */
  lemma Progress(s: bytes, start: int)
    requires TagAt(s, start).1 >= 0 && |s| < TWO31
    ensures 0 <= start && start + 4 <= |s|
    ensures Aligned(TagAt(s, start).1) && TagAt(s, start).1 <= Align4(|s|)
    ensures TagAt(s, start).1 == Align4(start + TrueLength(s, start)) <==> !Wraps(s, start)
    ensures Aligned(start) ==>
      (TagAt(s, start).1 > start <==> !(Wraps(s, start) && Be32(s, start + 4) == 0xFFFF_FFF4))
  {
    hide TagAt, Extent, Be32, NulAt, Align4, Aligned;
    var l := LengthRead(s, start);
    ExtentAt(s, Be32(s, start), start, l);
    ExtentIs(s, Be32(s, start), start, l);
    if Wraps(s, start) {
      Align4Mono(|s| + 1, start + TrueLength(s, start));
      Align4Past(|s|);
    }
  }

  lemma Align4Past(n: nat)
    ensures Align4(n) < n + 4 <= Align4(n + 4)
  {
    Align4Div(n);
    Align4Div(n + 4);
  }

  lemma ExtentIs(s: bytes, tag: u32, start: nat, len: nat)
    requires Extent(s, tag, start, len).1 >= 0
    ensures Extent(s, tag, start, len).1 == Align4(start + len)
  {
  }

  /** The length that the reader adds to the offset, the addition at fdt.c:124 included. */
  lemma LengthRead(s: bytes, start: int) returns (l: nat)
    requires TagAt(s, start).1 >= 0 && |s| < TWO31
    ensures 0 <= start && start + 4 <= |s|
    ensures TagAt(s, start) == Extent(s, Be32(s, start), start, l)
    ensures if Wraps(s, start) then l == 12 + Be32(s, start + 4) - TWO32 && start + TrueLength(s, start) > |s| + 4
            else l == TrueLength(s, start) && l >= 4
  {
    hide Be32, Extent;
    l := if Wraps(s, start) then 12 + Be32(s, start + 4) - TWO32 else TrueLength(s, start);
    assert Wraps(s, start) ==> U32(12 + Be32(s, start + 4)) == l;
  }

  /** A property whose length cell is 2^32 - 12 makes the reader stand still. */
  lemma StandingStill()
    ensures TagAt(Word(FDT_PROP) + Word(0xFFFF_FFF4) + Word(0), 0) == (FDT_PROP, 0)
  {
    hide Be32;
    TwoCells(FDT_PROP, 0xFFFF_FFF4, Word(0));
    assert U32(12 + 0xFFFF_FFF4) == 0 && Align4(0) == 0;
  }

  lemma TwoCells(a: u32, b: u32, r: bytes)
    ensures var s := Word(a) + Word(b) + r;
      |s| == 8 + |r| && Be32(s, 0) == a && Be32(s, 4) == b
  {
    hide Word, Cell;
    var s := Word(a) + Word(b) + r;
    assert s[0..4] == Word(a) && s[4..8] == Word(b);
    CellOfWord(a);
    CellOfWord(b);
  }
}
