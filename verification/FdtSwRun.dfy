/** fdt_sw.c: whole runs of the sequential writer, and what reading them back gives. */
module FdtSwRun {
  import opened Bytes
  import opened Trees
  import opened Lexer
  import opened Views
  import opened Fdt
  import opened FdtRw
  import opened FdtSw

  /** A call that writers accept. */
  predicate Writable(e: Evt) {
    match e
    case Open(name) => NUL !in name && |name| < TWO31 - 8
    case Attr(p) => NUL !in p.name && |p.value| < TWO31 - 16
    case Close => true
    case Fin => false
  }

  /** What a call adds to the structure. */
  function CallBytes(e: Evt): nat {
    match e
    case Open(name) => 4 + Align4(|name| + 1)
    case Attr(p) => 12 + Align4(|p.value|)
    case Close => 4
    case Fin => 0
  }

  /** The strings after a call. */
  function TableAfter(tab: bytes, e: Evt): bytes {
    if e.Attr? then WithStringDown(tab, e.prop.name) else tab
  }

  function TableOf(calls: seq<Evt>): bytes {
    if calls == [] then [] else TableAfter(TableOf(calls[..|calls| - 1]), calls[|calls| - 1])
  }

  function StructOf(calls: seq<Evt>): nat {
    if calls == [] then 0 else StructOf(calls[..|calls| - 1]) + CallBytes(calls[|calls| - 1])
  }

  /** The bytes of a run so far: 48 for the header, the reserve entries with their terminator, structure and strings. */
  function Needed(rs: seq<Rsv>, calls: seq<Evt>): nat {
    64 + 16 * |rs| + StructOf(calls) + |TableOf(calls)|
  }

  lemma TableGrows(tab: bytes, e: Evt)
    ensures |TableAfter(tab, e)| == |tab| + if e.Attr? then NewStringSize(tab, e.prop.name) else 0
  {
  }

  lemma NextCall(rs: seq<Rsv>, calls: seq<Evt>, i: nat)
    requires i < |calls|
    ensures calls[..i + 1] == calls[..i] + [calls[i]]
    ensures TableOf(calls[..i + 1]) == TableAfter(TableOf(calls[..i]), calls[i])
    ensures StructOf(calls[..i + 1]) == StructOf(calls[..i]) + CallBytes(calls[i])
    ensures Needed(rs, calls[..i + 1]) == Needed(rs, calls[..i]) + CallBytes(calls[i])
      + if calls[i].Attr? then NewStringSize(TableOf(calls[..i]), calls[i].prop.name) else 0
  {
    hide CallBytes, TableAfter, NewStringSize;
    assert calls[..i + 1][..i] == calls[..i];
    TableGrows(TableOf(calls[..i]), calls[i]);
  }

  lemma {:induction false} NeededGrows(rs: seq<Rsv>, calls: seq<Evt>, i: nat)
    requires i <= |calls|
    ensures Needed(rs, calls[..i]) <= Needed(rs, calls)
    decreases |calls| - i
  {
    hide Needed, CallBytes, NewStringSize;
    if i < |calls| {
      NextCall(rs, calls, i);
      NeededGrows(rs, calls, i + 1);
    } else {
      assert calls[..i] == calls;
    }
  }

  /** The room check for a name wraps at no call that is reached: if everything before a property call fits in the
      buffer, so do the strings with the property's name. */
  predicate NamesFit(rs: seq<Rsv>, calls: seq<Evt>, bufsize: nat) {
    forall i :: 0 <= i < |calls| && calls[i].Attr? && Needed(rs, calls[..i]) <= bufsize ==>
      |TableOf(calls[..i])| + NewStringSize(TableOf(calls[..i]), calls[i].prop.name) <= bufsize
  }

  /** Names of up to 63 bytes never make it wrap. */
  lemma ShortNamesFit(rs: seq<Rsv>, calls: seq<Evt>, bufsize: nat)
    requires forall i :: 0 <= i < |calls| && calls[i].Attr? ==> |calls[i].prop.name| < 64
    ensures NamesFit(rs, calls, bufsize)
  {
    hide TableOf, StructOf, CallBytes;
  }

  /** One call of the structure writers. */
  method Call(fdt: Blob, e: Evt) returns (err: int)
    requires Writing(fdt) && Writable(e) && (e.Attr? ==> NoWrap(fdt.h, fdt.v.tab, e.prop.name))
    modifies fdt.buf, fdt`h, fdt`v
    ensures Writing(fdt)
    ensures var n, t := CallBytes(e), TableAfter(old(fdt.v.tab), e);
      if Room(old(fdt.h), n + (|t| - |old(fdt.v.tab)|))
      then err == 0 && Log(fdt.v) == Log(old(fdt.v)) + [e] && fdt.v.tab == t
           && fdt.h == old(fdt.h).(sizeStruct := old(fdt.h.sizeStruct) + n, sizeStrings := |t|)
      else err == -ERR_NOSPACE
  {
    hide Unfinished, Log, Align4, NewStringSize;
    Bounds(fdt.h, fdt.buf[..], fdt.v, fdt.rsv);
    TableGrows(fdt.v.tab, e);
    match e
    case Open(name) => err := BeginNode(fdt, name);
    case Attr(p) => err := Property(fdt, p.name, p.value);
    case Close => err := EndNode(fdt);
  }

  /** The reserve entries of a run. */
  method Reserve(fdt: Blob, bufsize: nat, rs: seq<Rsv>) returns (err: int)
    requires bufsize <= fdt.buf.Length < TWO31
    modifies fdt.buf, fdt
    ensures if bufsize < 64 + 16 * |rs| then err == -ERR_NOSPACE
      else err == 0 && Writing(fdt) && Log(fdt.v) == [] && fdt.v.tab == [] && fdt.rsv == rs + [Rsv(0, 0)]
           && fdt.h == CreatedHeader(bufsize).(offStruct := 64 + 16 * |rs|)
  {
    hide Unfinished, Log;
    err := Create(fdt, bufsize);
    if err != 0 { return; }
    var i := 0;
    while i < |rs|
      invariant i <= |rs| && 40 <= bufsize && (i > 0 ==> bufsize >= 48 + 16 * i)
      invariant fdt.h == CreatedHeader(bufsize).(offStruct := 48 + 16 * i)
      invariant bufsize >= 48 + 16 * i ==> Writing(fdt) && Log(fdt.v) == [] && fdt.v.tab == [] && fdt.rsv == rs[..i]
    {
      err := AddReservemapEntry(fdt, rs[i].address, rs[i].size);
      if err != 0 { return; }
      i := i + 1;
    }
    err := FinishReservemap(fdt);
  }

  /** A whole run of the sequential writer. It returns 0 exactly when everything fits; when the calls spell a tree,
      the finished blob then reads back as exactly that tree and exactly those reserve entries. */
  method Run(fdt: Blob, bufsize: nat, rs: seq<Rsv>, calls: seq<Evt>, ghost t: Tree) returns (err: int)
    requires bufsize <= fdt.buf.Length < TWO31
    requires (forall i :: 0 <= i < |calls| ==> Writable(calls[i])) && NamesFit(rs, calls, bufsize)
    modifies fdt.buf, fdt
    ensures err == if Needed(rs, calls) + 4 <= bufsize then 0 else -ERR_NOSPACE
    ensures err == 0 && calls == Flatten(t) && (forall i :: 0 <= i < |rs| ==> rs[i].size != 0) ==>
      fdt.Valid() && fdt.v.tree == t && fdt.rsv == rs
    ensures err == 0 ==>
      && fdt.h.magic == 0xd00d_feed && fdt.h.version == 17 && fdt.h.lastComp == 16
      && fdt.h.offRsv == 48 && fdt.h.offStruct == 64 + 16 * |rs|
      && fdt.h.offStrings == fdt.h.offStruct + fdt.h.sizeStruct
      && fdt.h.totalsize == fdt.h.offStrings + fdt.h.sizeStrings == Needed(rs, calls) + 4
  {
    hide Unfinished, Log, Editable, Flatten, TableOf, StructOf, CallBytes, TableAfter, NewStringSize;
    err := Reserve(fdt, bufsize, rs);
    NeededGrows(rs, calls, 0);
    if err != 0 { return; }
    var i := 0;
    NothingNeeded();
    assert calls[..0] == [];
    while i < |calls|
      invariant i <= |calls| && Needed(rs, calls[..i]) <= bufsize
      invariant Writing(fdt) && Log(fdt.v) == calls[..i] && fdt.v.tab == TableOf(calls[..i])
      invariant fdt.rsv == rs + [Rsv(0, 0)] && fdt.h == RunHeader(bufsize, rs, calls[..i])
    {
      NextCall(rs, calls, i);
      NeededGrows(rs, calls, i + 1);
      TableGrows(fdt.v.tab, calls[i]);
      err := Call(fdt, calls[i]);
      if err != 0 { return; }
      i := i + 1;
    }
    assert calls[..|calls|] == calls;
    err := Finish(fdt, t, rs);
  }

  lemma NothingNeeded()
    ensures TableOf([]) == [] && StructOf([]) == 0
  {
  }

  /** The header of a run after some calls. */
  function RunHeader(bufsize: nat, rs: seq<Rsv>, calls: seq<Evt>): Header
    requires Needed(rs, calls) <= bufsize < TWO31
  {
    CreatedHeader(bufsize).(offStruct := 64 + 16 * |rs|, sizeStruct := StructOf(calls), sizeStrings := |TableOf(calls)|)
  }
}
