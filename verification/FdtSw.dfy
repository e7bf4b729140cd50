/** fdt_sw.c: writing a blob from front to back. The strings grow downwards from the end of the buffer, and names are
    negative offsets from there until `fdt_finish` moves the table. */
module FdtSw {
  import opened Bytes
  import opened Strings
  import opened CString
  import opened Trees
  import opened Tokens
  import opened Lexer
  import opened Views
  import opened Edits
  import opened Fdt
  import opened FdtRw
  import opened FdtRwBlocks

  /** A token with its name offset moved up by `n`, in 32-bit arithmetic. */
  function Rebase(t: Token, n: nat): Token {
    if t.TProp? then TProp(U32(t.nameoff + n), t.value, t.pad) else t
  }

  function Rebased(ts: seq<Token>, n: nat): (r: seq<Token>)
    ensures |r| == |ts|
  {
    seq(|ts|, i requires 0 <= i < |ts| => Rebase(ts[i], n))
  }

  /** A name written as a negative offset from the end of a table. */
  predicate FromEnd(nameoff: u32, tab: bytes) {
    TWO32 - |tab| <= nameoff && HasStr(tab, nameoff + |tab| - TWO32)
  }

  predicate AllFromEnd(ts: seq<Token>, tab: bytes) {
    forall i :: 0 <= i < |ts| && ts[i].TProp? ==> FromEnd(ts[i].nameoff, tab)
  }

  /** No FDT_NOP and no FDT_END has been written. */
  predicate Plain(ts: seq<Token>) {
    forall i :: 0 <= i < |ts| ==> !ts[i].TNop? && !ts[i].TFin?
  }

  /** The calls that wrote the structure so far. */
  function Log(v: View): seq<Evt> {
    Abs(Rebased(v.toks, |v.tab|), v.tab)
  }

  function Entries(rs: seq<Rsv>): (b: bytes)
    ensures |b| == 16 * |rs|
  {
    if rs == [] then [] else Entries(rs[..|rs| - 1]) + RsvBytes(rs[|rs| - 1])
  }

  /** A blob that is being written. */
  predicate Unfinished(h: Header, m: bytes, v: View, entries: seq<Rsv>) {
    && h.magic == FDT_SW_MAGIC && h.version == 17 && h.lastComp == 16 && h.totalsize <= |m| < TWO31
    && h.offRsv == 48 && h.offStruct == 48 + 16 * |entries|
    && h.offStruct + h.sizeStruct + h.sizeStrings <= h.totalsize
    && m[48..h.offStruct] == Entries(entries)
    && h.sizeStruct == |Ser(v.toks)| && m[h.offStruct..h.offStruct + h.sizeStruct] == Ser(v.toks)
    && h.sizeStrings == |v.tab| && m[h.totalsize - h.sizeStrings..h.totalsize] == v.tab
    && Wf(v.toks) && Plain(v.toks) && AllFromEnd(v.toks, v.tab)
  }

  ghost predicate Writing(fdt: Blob)
    reads fdt, fdt.buf
  {
    Unfinished(fdt.h, fdt.buf[..], fdt.v, fdt.rsv)
  }

  function SwError(h: Header): int { if h.magic != FDT_SW_MAGIC then -ERR_BADMAGIC else 0 }

  /** The space check of `fdt_grab_space_`: a 32-bit difference, compared as an unsigned number. */
  predicate MayGrab(h: Header, len: nat) {
    h.sizeStruct + len <= U32(h.totalsize - h.offStruct - h.sizeStrings)
  }

  /** The header that `fdt_create` writes. */
  function CreatedHeader(bufsize: u32): Header {
    Header(FDT_SW_MAGIC, bufsize, 48, bufsize, 48, 17, 16, 0, 0, 0)
  }

  /** `fdt_create` accepts 40 bytes, but the check of `fdt_grab_space_` keeps writers inside the buffer exactly from
      48 bytes on. Writers that come after `fdt_finish_reservemap`, which refuses less than 64 bytes, do not meet
      this. */
  lemma CreateNeedsRoomForTheMap(bufsize: u32)
    requires 40 <= bufsize < TWO31
    ensures (forall len: nat :: MayGrab(CreatedHeader(bufsize), len) ==> 48 + len <= bufsize) <==> bufsize >= 48
  {
    if bufsize < 48 { assert MayGrab(CreatedHeader(bufsize), 4); }
  }

  /** `fdt_create`. */
  method Create(fdt: Blob, bufsize: nat) returns (err: int)
    requires bufsize <= fdt.buf.Length < TWO31
    modifies fdt, fdt.buf
    ensures bufsize < 40 ==> err == -ERR_NOSPACE && fdt.h == old(fdt.h) && fdt.buf[..] == old(fdt.buf[..])
    ensures bufsize >= 40 ==> err == 0 && fdt.h == CreatedHeader(bufsize)
    ensures bufsize >= 48 ==> Writing(fdt) && Log(fdt.v) == [] && fdt.v.tab == [] && fdt.rsv == []
  {
    if bufsize < 40 { return -ERR_NOSPACE; }
    Memset(fdt.buf, 0, NUL, bufsize);
    fdt.h := CreatedHeader(bufsize);
    fdt.v := View([], [], [], Node([], [], []));
    fdt.rsv := [];
    if bufsize >= 48 { SerNil(); }
    return 0;
  }

  /** `fdt_resize`, from one place in memory to another; old and new buffer may be the same, disjoint, or overlap in
      part. The structure is not copied: what is being written survives exactly when it fits and its bytes are at the
      same place in the new buffer already. */
  method Resize(mem: array<byte>, fdt: nat, h: Header, buf: nat, bufsize: nat, ghost v: View, ghost rs: seq<Rsv>)
    returns (err: int, h': Header)
    requires fdt <= mem.Length && buf + bufsize <= mem.Length < TWO31
    requires SwError(h) == 0 ==> Unfinished(h, mem[..][fdt..], v, rs)
    modifies mem
    ensures SwError(h) != 0 ==> err == -ERR_BADMAGIC
    ensures SwError(h) == 0 ==>
      if h.offStruct + h.sizeStrings > bufsize then err == -ERR_NOSPACE
      else err == 0 && h' == h.(offStrings := bufsize, totalsize := bufsize)
    ensures err != 0 ==> h' == h && mem[..] == old(mem[..])
    ensures err == 0 ==> (Unfinished(h', mem[..][buf..], v, rs) <==> Survives(h, v, old(mem[..])[buf..], bufsize))
    ensures mem[..][..buf] == old(mem[..])[..buf] && mem[..][buf + bufsize..] == old(mem[..])[buf + bufsize..]
  {
    hide Unfinished, Written, Survives, Bytes.U32;
    h' := h;
    err := SwError(h);
    if err != 0 { return; }
    ghost var m := mem[..];
    Bounds(h, m[fdt..], v, rs);
    var headsize, tailsize := h.offStruct, h.sizeStrings;
    if headsize + tailsize > bufsize { return -ERR_NOSPACE, h; }
    var oldtail, newtail := h.totalsize - tailsize, bufsize - tailsize;
    HeadAndTail(mem, fdt, buf, headsize, oldtail, newtail, tailsize);
    h' := h.(offStrings := bufsize, totalsize := bufsize);
    ResizedMemory(h, m, mem[..], fdt, buf, v, rs, bufsize);
  }

  /** Memory after the two moves. */
  lemma ResizedMemory(h: Header, m: bytes, r: bytes, fdt: nat, buf: nat, v: View, rs: seq<Rsv>, bufsize: nat)
    requires fdt <= |m| && buf + bufsize <= |m| < TWO31 && h.offStruct + h.sizeStrings <= bufsize
    requires Unfinished(h, m[fdt..], v, rs) && h.sizeStrings <= h.totalsize && fdt + h.totalsize <= |m|
    requires h.offStruct <= h.totalsize
    requires var tail := m[fdt + h.totalsize - h.sizeStrings..fdt + h.totalsize];
      r == Written(Written(m, buf, m[fdt..fdt + h.offStruct]), buf + bufsize - h.sizeStrings, tail)
    ensures Unfinished(h.(offStrings := bufsize, totalsize := bufsize), r[buf..], v, rs)
      <==> Survives(h, v, m[buf..], bufsize)
    ensures r[..buf] == m[..buf] && r[buf + bufsize..] == m[buf + bufsize..]
  {
    hide Unfinished, Written, Survives;
    var o, d, oldtail, newtail := m[fdt..], m[buf..], h.totalsize - h.sizeStrings, bufsize - h.sizeStrings;
    TwoWritesFrom(m, r, buf, m[fdt..fdt + h.offStruct], newtail, m[fdt + oldtail..fdt + h.totalsize]);
    SliceFrom(m, fdt, 0, h.offStruct);
    SliceFrom(m, fdt, oldtail, h.totalsize);
    ResizedBlob(h, o, d, v, rs, Written(d, 0, o[0..h.offStruct]), r[buf..], bufsize);
  }

  /** The two moves of `fdt_resize`, in the order that keeps the second from reading what the first overwrote. */
  method HeadAndTail(a: array<byte>, fdt: nat, buf: nat, head: nat, oldtail: nat, newtail: nat, tail: nat)
    requires head <= oldtail && fdt + oldtail + tail <= a.Length && head <= newtail && buf + newtail + tail <= a.Length
    modifies a
    ensures var m := old(a[..]);
      a[..] == Written(Written(m, buf, m[fdt..fdt + head]), buf + newtail, m[fdt + oldtail..fdt + oldtail + tail])
  {
    hide Moved, Written;
    ghost var m := a[..];
    if buf <= fdt {
      Memmove(a, buf, fdt, head);
      Memmove(a, buf + newtail, fdt + oldtail, tail);
      HeadFirst(m, fdt, buf, head, oldtail, newtail, tail);
    } else {
      Memmove(a, buf + newtail, fdt + oldtail, tail);
      Memmove(a, buf, fdt, head);
      TailFirst(m, fdt, buf, head, oldtail, newtail, tail);
    }
  }

  /** Moving the head down does not touch the strings it is moved away from. */
  lemma HeadFirst(m: bytes, fdt: nat, buf: nat, head: nat, oldtail: nat, newtail: nat, tail: nat)
    requires head <= oldtail && fdt + oldtail + tail <= |m| && head <= newtail && buf + newtail + tail <= |m|
    requires buf <= fdt
    ensures Moved(Moved(m, buf, fdt, head), buf + newtail, fdt + oldtail, tail)
      == Written(Written(m, buf, m[fdt..fdt + head]), buf + newtail, m[fdt + oldtail..fdt + oldtail + tail])
  {
    var r, t := Moved(m, buf, fdt, head), fdt + oldtail;
    SameSuffix(m, r, buf + head, t, t + tail) by { MovedParts(m, buf, fdt, head); }
  }

  /** Moving the strings up does not touch the head. */
  lemma TailFirst(m: bytes, fdt: nat, buf: nat, head: nat, oldtail: nat, newtail: nat, tail: nat)
    requires head <= oldtail && fdt + oldtail + tail <= |m| && head <= newtail && buf + newtail + tail <= |m|
    requires fdt < buf
    ensures Moved(Moved(m, buf + newtail, fdt + oldtail, tail), buf, fdt, head)
      == Written(Written(m, buf, m[fdt..fdt + head]), buf + newtail, m[fdt + oldtail..fdt + oldtail + tail])
  {
    var d, w := buf + newtail, m[fdt + oldtail..fdt + oldtail + tail];
    hide Written, Moved;
    var r := Written(m, d, w);
    MovedIsWritten(m, d, fdt + oldtail, tail);
    SamePrefix(m, r, d, fdt, fdt + head) by { WrittenParts(m, d, w); }
    MovedIsWritten(r, buf, fdt, head);
    WritesCommute(m, buf, m[fdt..fdt + head], d, w);
  }

  lemma MovedIsWritten(m: bytes, d: nat, s: nat, n: nat)
    requires d + n <= |m| && s + n <= |m|
    ensures Moved(m, d, s, n) == Written(m, d, m[s..s + n])
  {
  }

  /** Writes to different places may change order. */
  lemma WritesCommute(m: bytes, x: nat, u: bytes, y: nat, w: bytes)
    requires x + |u| <= y && y + |w| <= |m|
    ensures Written(Written(m, y, w), x, u) == Written(Written(m, x, u), y, w)
  {
  }

  lemma SliceFrom(m: bytes, o: nat, x: nat, y: nat)
    requires x <= y && o + y <= |m|
    ensures m[o..][x..y] == m[o + x..o + y]
  {
  }

  /** Two writes into memory, seen from `o` on. */
  lemma TwoWritesFrom(m: bytes, r: bytes, o: nat, head: bytes, d: nat, tail: bytes)
    requires |head| <= d && o + d + |tail| <= |m| && r == Written(Written(m, o, head), o + d, tail)
    ensures r[o..] == Written(Written(m[o..], 0, head), d, tail)
    ensures r[..o] == m[..o] && r[o + d + |tail|..] == m[o + d + |tail|..]
  {
    hide Written;
    var m1, e, n := Written(m, o, head), o + d + |tail|, |m|;
    WrittenFrom(m, o, 0, head);
    WrittenFrom(m1, o, d, tail);
    WrittenParts(m, o, head);
    WrittenParts(m1, o + d, tail);
    SameSuffix(m, m1, o + |head|, e, n);
    assert m1[e..n] == m1[e..] && m[e..n] == m[e..];
    SamePrefix(m1, r, o + d, 0, o);
    assert r[0..o] == r[..o] && m1[0..o] == m1[..o];
  }

  /** A write, seen from `o` on. */
  lemma WrittenFrom(m: bytes, o: nat, d: nat, w: bytes)
    requires o + d + |w| <= |m|
    ensures Written(m, o + d, w)[o..] == Written(m[o..], d, w)
  {
  }

  predicate Survives(h: Header, v: View, dm: bytes, bufsize: nat) {
    var e := h.offStruct + h.sizeStruct;
    e + h.sizeStrings <= bufsize && e <= |dm| && dm[h.offStruct..e] == Ser(v.toks)
  }

  lemma ResizedBlob(h: Header, m: bytes, dm: bytes, v: View, rs: seq<Rsv>, m1: bytes, m2: bytes, bufsize: nat)
    requires Unfinished(h, m, v, rs) && h.offStruct + h.sizeStrings <= bufsize <= |dm| < TWO31
    requires m1 == Written(dm, 0, m[0..h.offStruct])
    requires m2 == Written(m1, bufsize - h.sizeStrings, m[h.totalsize - h.sizeStrings..h.totalsize])
    ensures Unfinished(h.(offStrings := bufsize, totalsize := bufsize), m2, v, rs) <==> Survives(h, v, dm, bufsize)
  {
    hide Written, Ser, Entries, AllFromEnd, Plain, Wf;
    var e, t, o := h.offStruct + h.sizeStruct, bufsize - h.sizeStrings, h.offStruct;
    WrittenParts(dm, 0, m[0..o]);
    WrittenParts(m1, t, v.tab);
    assert m[0..o][48..] == m[48..o] && m1[48..o] == m1[0..o][48..];
    SamePrefix(m1, m2, t, 48, o);
    if e <= t {
      SamePrefix(m1, m2, t, o, e);
      SameSuffix(dm, m1, o, o, e);
    }
  }

  lemma EntriesMore(rs: seq<Rsv>, r: Rsv)
    ensures Entries(rs + [r]) == Entries(rs) + RsvBytes(r)
  {
    assert (rs + [r])[..|rs|] == rs;
  }

  /** A blob that takes reserve entries, or one that is too small to take any, as `fdt_create` may leave it. */
  ghost predicate Reserving(fdt: Blob)
    reads fdt, fdt.buf
  {
    || (Writing(fdt) && (fdt.h.sizeStruct == 0 ==> fdt.h.sizeStrings == 0))
    || (fdt.h.sizeStruct == 0 && fdt.h.offStruct + 16 > fdt.h.totalsize)
  }

  /** `fdt_add_reservemap_entry`. Entries come before the structure and before any string. */
  method AddReservemapEntry(fdt: Blob, addr: u64, size: u64) returns (err: int)
    requires SwError(fdt.h) == 0 ==> Reserving(fdt)
    modifies fdt.buf, fdt`h, fdt`rsv
    ensures SwError(old(fdt.h)) != 0 ==> err == -ERR_BADMAGIC
    ensures err != 0 ==> fdt.h == old(fdt.h) && fdt.rsv == old(fdt.rsv) && fdt.buf[..] == old(fdt.buf[..])
    ensures err == 0 || old(Writing(fdt)) ==> Writing(fdt)
    ensures SwError(old(fdt.h)) == 0 ==>
      if old(fdt.h.sizeStruct) != 0 then err == -ERR_BADSTATE
      else if old(fdt.h.offStruct) + 16 > fdt.h.totalsize then err == -ERR_NOSPACE
      else (err == 0 && fdt.rsv == old(fdt.rsv) + [Rsv(addr, size)]
            && fdt.h == old(fdt.h).(offStruct := old(fdt.h.offStruct) + 16))
  {
    hide Unfinished, Written;
    err := SwError(fdt.h);
    if err != 0 { return; }
    if fdt.h.sizeStruct != 0 { return -ERR_BADSTATE; }
    var offset := fdt.h.offStruct;
    if offset + 16 > fdt.h.totalsize { return -ERR_NOSPACE; }
    Bounds(fdt.h, fdt.buf[..], fdt.v, fdt.rsv);
    ghost var h, m := fdt.h, fdt.buf[..];
    Memcpy(fdt.buf, offset, BigEndian(addr, 8));
    Memcpy(fdt.buf, offset + 8, BigEndian(size, 8));
    fdt.h := fdt.h.(offStruct := offset + 16);
    EntryWritten(h, m, fdt.v, fdt.rsv, fdt.buf[..], Rsv(addr, size));
    fdt.rsv := fdt.rsv + [Rsv(addr, size)];
    return 0;
  }

  lemma Bounds(h: Header, m: bytes, v: View, rs: seq<Rsv>)
    requires Unfinished(h, m, v, rs)
    ensures h.magic == FDT_SW_MAGIC && 48 <= h.offStruct
    ensures h.offStruct + h.sizeStruct + h.sizeStrings <= h.totalsize <= |m| < TWO31
    ensures h.sizeStruct == |Ser(v.toks)| && h.sizeStrings == |v.tab|
    ensures m[h.totalsize - h.sizeStrings..h.totalsize] == v.tab
  {
  }

  lemma EntryWritten(h: Header, m: bytes, v: View, rs: seq<Rsv>, m': bytes, r: Rsv)
    requires Unfinished(h, m, v, rs) && h.sizeStruct == 0 && h.sizeStrings == 0 && h.offStruct + 16 <= h.totalsize
    requires m' == Written(Written(m, h.offStruct, BigEndian(r.address, 8)), h.offStruct + 8, BigEndian(r.size, 8))
    ensures Unfinished(h.(offStruct := h.offStruct + 16), m', v, rs + [r])
  {
    hide Written, Ser, Entries;
    var o := h.offStruct;
    TwoWrites(m, m', o, BigEndian(r.address, 8), BigEndian(r.size, 8));
    SamePrefix(m, m', o, 48, o);
    EntriesMore(rs, r);
    SliceJoin(m', 48, o, o + 16);
  }

  /** `fdt_finish_reservemap`: an entry of zeros. */
  method FinishReservemap(fdt: Blob) returns (err: int)
    requires SwError(fdt.h) == 0 ==> Reserving(fdt)
    modifies fdt.buf, fdt`h, fdt`rsv
    ensures SwError(old(fdt.h)) != 0 ==> err == -ERR_BADMAGIC
    ensures err != 0 ==> fdt.h == old(fdt.h) && fdt.rsv == old(fdt.rsv) && fdt.buf[..] == old(fdt.buf[..])
    ensures err == 0 || old(Writing(fdt)) ==> Writing(fdt)
    ensures SwError(old(fdt.h)) == 0 ==>
      if old(fdt.h.sizeStruct) != 0 then err == -ERR_BADSTATE
      else if old(fdt.h.offStruct) + 16 > fdt.h.totalsize then err == -ERR_NOSPACE
      else (err == 0 && fdt.rsv == old(fdt.rsv) + [Rsv(0, 0)]
            && fdt.h == old(fdt.h).(offStruct := old(fdt.h.offStruct) + 16))
  {
    err := AddReservemapEntry(fdt, 0, 0);
  }

  /** `fdt_grab_space_`: room at the end of the structure, when the strings leave it. */
  method GrabSpace(fdt: Blob, len: nat) returns (ok: bool, offset: nat)
    requires fdt.h.sizeStruct < TWO31 && len < TWO31
    modifies fdt`h
    ensures offset == old(fdt.h.sizeStruct)
    ensures ok <==> MayGrab(old(fdt.h), len)
    ensures old(Writing(fdt)) ==> (ok <==> Room(old(fdt.h), len))
    ensures fdt.h == if ok then old(fdt.h).(sizeStruct := offset + len) else old(fdt.h)
  {
    hide Unfinished;
    if Writing(fdt) { Bounds(fdt.h, fdt.buf[..], fdt.v, fdt.rsv); }
    offset := fdt.h.sizeStruct;
    var spaceleft := U32(fdt.h.totalsize - fdt.h.offStruct - fdt.h.sizeStrings);
    if U32(offset + len) < offset || U32(offset + len) > spaceleft { return false, offset; }
    fdt.h := fdt.h.(sizeStruct := offset + len);
    return true, offset;
  }

  /** A token written at the end of the structure. */
  lemma TokenWritten(h: Header, m: bytes, v: View, rs: seq<Rsv>, m': bytes, t: Token)
    requires Unfinished(h, m, v, rs) && WfTok(t) && !t.TNop? && !t.TFin?
    requires t.TProp? ==> FromEnd(t.nameoff, v.tab)
    requires var e, w := h.offStruct + h.sizeStruct, TokBytes(t);
      && e + |w| + h.sizeStrings <= h.totalsize && |m'| == |m|
      && m'[..e] == m[..e] && m'[e..e + |w|] == w && m'[e + |w|..] == m[e + |w|..]
    ensures Unfinished(h.(sizeStruct := h.sizeStruct + |TokBytes(t)|), m', v.(toks := v.toks + [t]), rs)
    ensures Log(v.(toks := v.toks + [t])) == Log(v) + Evts(Rebase(t, |v.tab|), v.tab)
  {
    hide Ser, Entries, TokBytes, Abs, FromEnd, Evts, Log, WfTok;
    var e, w := h.offStruct + h.sizeStruct, TokBytes(t);
    SerAppend(v.toks, [t]);
    SerOne(t);
    AppendedInMemory(m, m', h.offStruct, e, w, h.totalsize - h.sizeStrings, h.totalsize);
    LogMore(v, v.toks, t);
  }

  /** Memory with `w` written at `e`: what is before it and what is from `x` on stays. */
  lemma AppendedInMemory(m: bytes, m': bytes, o: nat, e: nat, w: bytes, x: nat, y: nat)
    requires 48 <= o <= e && e + |w| <= x <= y <= |m| == |m'|
    requires m'[..e] == m[..e] && m'[e..e + |w|] == w && m'[e + |w|..] == m[e + |w|..]
    ensures m'[48..o] == m[48..o] && m'[o..e + |w|] == m[o..e] + w && m'[x..y] == m[x..y]
  {
    SamePrefix(m, m', e, 48, o);
    SamePrefix(m, m', e, o, e);
    SameSuffix(m, m', e + |w|, x, y);
    SliceJoin(m', o, e, e + |w|);
  }

  lemma LogMore(v: View, ts: seq<Token>, t: Token)
    ensures Log(v.(toks := ts + [t])) == Log(v.(toks := ts)) + Evts(Rebase(t, |v.tab|), v.tab)
  {
    hide Abs, Evts, Rebase;
    assert Rebased(ts + [t], |v.tab|) == Rebased(ts, |v.tab|) + [Rebase(t, |v.tab|)];
    AbsAppend(Rebased(ts, |v.tab|), [Rebase(t, |v.tab|)], v.tab);
    AbsOne(Rebase(t, |v.tab|), v.tab);
  }

  /** `fdt_begin_node`. The padding of the name is whatever was in the buffer. */
  method BeginNode(fdt: Blob, name: bytes) returns (err: int)
    requires (SwError(fdt.h) == 0 ==> Writing(fdt)) && NUL !in name && |name| < TWO31 - 8
    modifies fdt.buf, fdt`h, fdt`v
    ensures SwError(old(fdt.h)) != 0 ==> err == -ERR_BADMAGIC
    ensures SwError(old(fdt.h)) == 0 ==> Writing(fdt) && fdt.v.tab == old(fdt.v.tab)
    ensures SwError(old(fdt.h)) == 0 ==>
      if Room(old(fdt.h), 4 + Align4(|name| + 1))
      then err == 0 && Log(fdt.v) == Log(old(fdt.v)) + [Open(name)]
           && fdt.h == old(fdt.h).(sizeStruct := old(fdt.h.sizeStruct) + 4 + Align4(|name| + 1))
      else err == -ERR_NOSPACE && fdt.v == old(fdt.v) && fdt.h == old(fdt.h)
  {
    hide Unfinished, Written, Align4, Word, Log;
    err := SwError(fdt.h);
    if err != 0 { return; }
    ghost var h, m, v := fdt.h, fdt.buf[..], fdt.v;
    Bounds(h, m, v, fdt.rsv);
    var ok, offset := GrabSpace(fdt, 4 + Align4(|name| + 1));
    if !ok { return -ERR_NOSPACE; }
    Memcpy(fdt.buf, fdt.h.offStruct + offset, Word(FDT_BEGIN_NODE));
    Memcpy(fdt.buf, fdt.h.offStruct + offset + 4, name + [NUL]);
    fdt.v := NodeBegun(h, m, v, fdt.rsv, fdt.buf[..], name);
    return 0;
  }

  /** There is room for `len` more bytes of structure. */
  predicate Room(h: Header, len: nat) {
    h.offStruct + h.sizeStruct + len + h.sizeStrings <= h.totalsize
  }

  lemma NodeBegun(h: Header, m: bytes, v: View, rs: seq<Rsv>, m': bytes, name: bytes) returns (v': View)
    requires Unfinished(h, m, v, rs) && NUL !in name && Room(h, 4 + Align4(|name| + 1)) && h.totalsize <= |m|
    requires var e := h.offStruct + h.sizeStruct;
      m' == Written(Written(m, e, Word(FDT_BEGIN_NODE)), e + 4, name + [NUL])
    ensures Unfinished(h.(sizeStruct := h.sizeStruct + 4 + Align4(|name| + 1)), m', v', rs) && v'.tab == v.tab
    ensures Log(v') == Log(v) + [Open(name)]
  {
    hide Unfinished, Written, Align4, Word, Log, Aligned, TokBytes, Body;
    var e := h.offStruct + h.sizeStruct;
    var t := TBegin(name, m[e + 5 + |name|..e + 4 + Align4(|name| + 1)]);
    NameBytesWritten(m, m', e, name);
    TokenWritten(h, m, v, rs, m', t);
    v' := v.(toks := v.toks + [t]);
  }

  /** The tag and the name make an opening token with what was in the buffer. */
  lemma NameBytesWritten(m: bytes, m': bytes, e: nat, name: bytes)
    requires NUL !in name && e + 4 + Align4(|name| + 1) <= |m|
    requires m' == Written(Written(m, e, Word(FDT_BEGIN_NODE)), e + 4, name + [NUL])
    ensures var t, n := TBegin(name, m[e + 5 + |name|..e + 4 + Align4(|name| + 1)]), 4 + Align4(|name| + 1);
      && WfTok(t) && |TokBytes(t)| == n && |m'| == |m|
      && m'[..e] == m[..e] && m'[e..e + n] == TokBytes(t) && m'[e + n..] == m[e + n..]
  {
    hide Written, Align4, Word, Aligned;
    var an := Align4(|name| + 1);
    Align4Aligned(|name| + 1);
    var pad := m[e + 5 + |name|..e + 4 + an];
    TwoPieces(m, m', e, Word(FDT_BEGIN_NODE), name + [NUL], 4 + an);
    assert Word(FDT_BEGIN_NODE) + (name + [NUL]) + pad == Word(FDT_BEGIN_NODE) + (name + [NUL] + pad);
  }

  /** Two adjacent writes at the start of a stretch of `n` bytes. */
  lemma TwoPieces(m: bytes, m': bytes, e: nat, a: bytes, b: bytes, n: nat)
    requires |a| + |b| <= n && e + n <= |m| && m' == Written(Written(m, e, a), e + |a|, b)
    ensures |m'| == |m| && m'[..e] == m[..e] && m'[e + n..] == m[e + n..]
    ensures m'[e..e + n] == a + b + m[e + |a| + |b|..e + n]
  {
    var x, y := m[e + |a| + |b|..e + n], m[e + n..];
    assert m[e + |a| + |b|..] == x + y;
    assert m' == m[..e] + (a + b + x) + y;
    SplitThree(m[..e], a + b + x, y);
  }

  /** `fdt_end_node`. */
  method EndNode(fdt: Blob) returns (err: int)
    requires SwError(fdt.h) == 0 ==> Writing(fdt)
    modifies fdt.buf, fdt`h, fdt`v
    ensures SwError(old(fdt.h)) != 0 ==> err == -ERR_BADMAGIC
    ensures SwError(old(fdt.h)) == 0 ==> Writing(fdt) && fdt.v.tab == old(fdt.v.tab)
    ensures SwError(old(fdt.h)) == 0 ==>
      if Room(old(fdt.h), 4)
      then err == 0 && Log(fdt.v) == Log(old(fdt.v)) + [Close]
           && fdt.h == old(fdt.h).(sizeStruct := old(fdt.h.sizeStruct) + 4)
      else err == -ERR_NOSPACE && fdt.v == old(fdt.v) && fdt.h == old(fdt.h)
  {
    hide Unfinished, Written, Word, Log;
    err := SwError(fdt.h);
    if err != 0 { return; }
    ghost var h, m, v := fdt.h, fdt.buf[..], fdt.v;
    Bounds(h, m, v, fdt.rsv);
    var ok, offset := GrabSpace(fdt, 4);
    if !ok { return -ERR_NOSPACE; }
    Memcpy(fdt.buf, fdt.h.offStruct + offset, Word(FDT_END_NODE));
    fdt.v := NodeEnded(h, m, v, fdt.rsv, fdt.buf[..]);
    return 0;
  }

  lemma NodeEnded(h: Header, m: bytes, v: View, rs: seq<Rsv>, m': bytes) returns (v': View)
    requires Room(h, 4) && h.totalsize <= |m| && m' == Written(m, h.offStruct + h.sizeStruct, Word(FDT_END_NODE))
    requires Unfinished(h, m, v, rs)
    ensures Unfinished(h.(sizeStruct := h.sizeStruct + 4), m', v', rs) && v'.tab == v.tab && Log(v') == Log(v) + [Close]
  {
    hide Unfinished, Written, Word, Log, TokBytes;
    Bounds(h, m, v, rs);
    WrittenParts(m, h.offStruct + h.sizeStruct, Word(FDT_END_NODE));
    ShortBytes(TEnd);
    TokenWritten(h, m, v, rs, m', TEnd);
    v' := v.(toks := v.toks + [TEnd]);
  }

  lemma ShortBytes(t: Token)
    requires t.TEnd? || t.TNop? || t.TFin?
    ensures TokBytes(t) == Word(TagOf(t))
  {
    hide Word;
    assert Word(TagOf(t)) + [] == Word(TagOf(t));
  }

  /** The room check of the sequential `fdt_find_add_string_`, with its 32-bit sum. */
  predicate RefusesString(h: Header, len: nat) {
    U32(h.totalsize - h.sizeStrings - len) < h.offStruct + h.sizeStruct
  }

  /** The check refuses a string exactly when there is no room, provided the string is not longer than what the
      table leaves of the whole buffer. */
  lemma RoomCheckExact(h: Header, len: nat)
    requires h.totalsize < TWO31 && h.offStruct + h.sizeStruct <= h.totalsize && h.sizeStrings <= h.totalsize
    requires 0 < len < TWO31
    ensures h.sizeStrings + len <= h.totalsize <==>
      (RefusesString(h, len) <==> h.offStruct + h.sizeStruct + len + h.sizeStrings > h.totalsize)
  {
    var x := h.totalsize - h.sizeStrings - len;
    if x < 0 { assert U32(x) == x + TWO32; }
  }

  /** The names of a list of tokens, after the table grew at its front. */
  lemma {:induction false} RebaseGrow(ts: seq<Token>, x: bytes, tab: bytes)
    requires AllFromEnd(ts, tab) && |x| + |tab| < TWO32
    ensures AllFromEnd(ts, x + tab)
    ensures Abs(Rebased(ts, |x + tab|), x + tab) == Abs(Rebased(ts, |tab|), tab)
  {
    hide FromEnd, HasStr, StrAt, U32;
    forall i | 0 <= i < |ts| && ts[i].TProp? ensures FromEnd(ts[i].nameoff, x + tab) {
      NameGrow(ts[i].nameoff, x, tab);
    }
    if ts != [] {
      if ts[0].TProp? { NameGrow(ts[0].nameoff, x, tab); }
      assert AllFromEnd(ts[1..], tab);
      assert Rebased(ts, |x + tab|)[1..] == Rebased(ts[1..], |x + tab|);
      assert Rebased(ts, |tab|)[1..] == Rebased(ts[1..], |tab|);
      RebaseGrow(ts[1..], x, tab);
    }
  }

  lemma NameGrow(no: u32, x: bytes, tab: bytes)
    requires FromEnd(no, tab) && |x| + |tab| < TWO32
    ensures FromEnd(no, x + tab)
    ensures StrAt(x + tab, U32(no + |x + tab|)) == StrAt(tab, U32(no + |tab|))
    ensures U32(no + |tab|) == no + |tab| - TWO32 && HasStr(tab, U32(no + |tab|))
  {
    hide HasStr, StrAt;
    StrAtPrepend(tab, x, no + |tab| - TWO32);
    Carried(no, |tab|);
    Carried(no, |x| + |tab|);
  }

  /** Adding to a negative offset carries out of 32 bits. */
  lemma Carried(no: u32, n: nat)
    requires TWO32 - n <= no && n < TWO32
    ensures U32(no + n) == no + n - TWO32
  {
  }

  /** `r` is a negative offset of the string `s` from the end of the table. */
  predicate NameIs(tab: bytes, r: int, s: bytes) {
    -TWO31 < r < 0 && 0 <= r + |tab| && FromEnd(U32(r), tab) && StrAt(tab, r + |tab|) == s
  }

  /** The offset, from the end of the table, where the sequential writer finds or puts a name. */
  function DownOff(t: bytes, s: bytes): int {
    if FirstOccurrence(t, s, 0) < |t| then FirstOccurrence(t, s, 0) - |t| else -|t| - |s| - 1
  }

  function WithStringDown(t: bytes, s: bytes): bytes {
    if NewStringSize(t, s) == 0 then t else (s + [NUL]) + t
  }

  /** The room check for a name does not wrap: the name is in the table, or it is not longer than what the table
      leaves of the whole buffer (`RoomCheckExact`). */
  predicate NoWrap(h: Header, tab: bytes, s: bytes) {
    h.sizeStrings + NewStringSize(tab, s) <= h.totalsize
  }

  /** The sequential `fdt_find_add_string_`: a negative offset from the end of the table, or 0 for no room. */
  method FindAddString(fdt: Blob, s: bytes) returns (r: int)
    requires Writing(fdt) && NUL !in s && NoWrap(fdt.h, fdt.v.tab, s)
    modifies fdt.buf, fdt`h, fdt`v
    ensures Writing(fdt) && Log(fdt.v) == Log(old(fdt.v)) && fdt.v.toks == old(fdt.v.toks)
    ensures r <= 0 && (r == 0 <==> NewStringSize(old(fdt.v.tab), s) > 0 && !Room(old(fdt.h), |s| + 1))
    ensures r == 0 ==> fdt.v == old(fdt.v) && fdt.h == old(fdt.h)
    ensures r < 0 ==>
      NameIs(fdt.v.tab, r, s) && r == DownOff(old(fdt.v.tab), s) && fdt.v.tab == WithStringDown(old(fdt.v.tab), s)
    ensures r < 0 ==> fdt.h == old(fdt.h).(sizeStrings := old(fdt.h.sizeStrings) + NewStringSize(old(fdt.v.tab), s))
  {
    hide Unfinished, Written, Log, Occurs, NameIs, U32, FirstOccurrence;
    ghost var h, m, v := fdt.h, fdt.buf[..], fdt.v;
    Bounds(h, m, v, fdt.rsv);
    var strtab, size := fdt.h.totalsize, fdt.h.sizeStrings;
    var p := FindString(fdt.buf[..], strtab - size, size, s);
    if p >= 0 {
      NameFound(p, v.tab, s);
      return p - size;
    }
    var offset := -size - (|s| + 1);
    var structTop := fdt.h.offStruct + fdt.h.sizeStruct;
    RoomCheckExact(fdt.h, |s| + 1);
    if U32(fdt.h.totalsize + offset) < structTop { return 0; }
    PutString(fdt, offset, s);
    return offset;
  }

  /** The part of `fdt_find_add_string_` that writes the string in front of the table. */
  method PutString(fdt: Blob, offset: int, s: bytes)
    requires Writing(fdt) && NUL !in s && Room(fdt.h, |s| + 1) && offset == -(|s| + 1) - fdt.h.sizeStrings
    requires FirstOccurrence(fdt.v.tab, s, 0) == |fdt.v.tab|
    modifies fdt.buf, fdt`h, fdt`v
    ensures Writing(fdt) && Log(fdt.v) == Log(old(fdt.v)) && fdt.v == old(fdt.v).(tab := fdt.v.tab)
    ensures NameIs(fdt.v.tab, offset, s) && offset == DownOff(old(fdt.v.tab), s)
    ensures fdt.v.tab == WithStringDown(old(fdt.v.tab), s)
    ensures fdt.h == old(fdt.h).(sizeStrings := old(fdt.h.sizeStrings) + |s| + 1)
  {
    hide Unfinished, Written, Log, Occurs, NameIs, U32, FirstOccurrence;
    ghost var h, m, v := fdt.h, fdt.buf[..], fdt.v;
    Bounds(h, m, v, fdt.rsv);
    Memcpy(fdt.buf, fdt.h.totalsize + offset, s + [NUL]);
    fdt.h := fdt.h.(sizeStrings := fdt.h.sizeStrings + |s| + 1);
    StringWritten(h, m, v, fdt.rsv, fdt.buf[..], s);
    fdt.v := v.(tab := (s + [NUL]) + v.tab);
  }

  lemma NameFound(p: nat, tab: bytes, s: bytes)
    requires NUL !in s && Occurs(tab, p, s) && p < |tab| < TWO31
    ensures NameIs(tab, p - |tab|, s)
  {
    hide HasStr, StrAt, Occurs, U32;
    OccursIsStrAt(tab, p, s);
    NegativeOffset(p, tab);
  }

  lemma NegativeOffset(p: nat, tab: bytes)
    requires p < |tab| < TWO31 && HasStr(tab, p)
    ensures FromEnd(U32(p - |tab|), tab)
  {
    assert U32(p - |tab|) == p - |tab| + TWO32;
  }

  /** Memory with `z` written at `d`, behind the structure and in front of the table. */
  lemma InsertedInMemory(m: bytes, m': bytes, o: nat, e: nat, d: nat, z: bytes, y: nat)
    requires 48 <= o <= e <= d && d + |z| <= y <= |m| && m' == Written(m, d, z)
    ensures m'[48..o] == m[48..o] && m'[o..e] == m[o..e] && m'[d..y] == z + m[d + |z|..y]
  {
    hide Written;
    WrittenParts(m, d, z);
    SamePrefix(m, m', d, 48, o);
    SamePrefix(m, m', d, o, e);
    SameSuffix(m, m', d + |z|, d + |z|, y);
    SliceJoin(m', d, d + |z|, y);
  }

  lemma StringWritten(h: Header, m: bytes, v: View, rs: seq<Rsv>, m': bytes, s: bytes)
    requires Unfinished(h, m, v, rs) && NUL !in s && Room(h, |s| + 1)
    requires h.sizeStrings + |s| + 1 <= h.totalsize <= |m|
    requires m' == Written(m, h.totalsize - h.sizeStrings - |s| - 1, s + [NUL])
    ensures var v' := v.(tab := (s + [NUL]) + v.tab);
      && Unfinished(h.(sizeStrings := h.sizeStrings + |s| + 1), m', v', rs) && Log(v') == Log(v)
      && NameIs(v'.tab, -|v'.tab|, s)
  {
    hide Written, Ser, Entries, Abs, Rebased, HasStr, StrAt, NameIs, Plain, Wf;
    var z := s + [NUL];
    var d, tab := h.totalsize - h.sizeStrings - |z|, z + v.tab;
    InsertedInMemory(m, m', h.offStruct, h.offStruct + h.sizeStruct, d, z, h.totalsize);
    RebaseGrow(v.toks, z, v.tab);
    assert tab[0..|s| + 1] == z;
    NameFound(0, tab, s);
  }

  /** `fdt_property_placeholder`: a property whose value is whatever was in the buffer. */
  method PropertyPlaceholder(fdt: Blob, name: bytes, len: nat) returns (err: int, valp: nat, ghost w: bytes)
    requires SwError(fdt.h) == 0 ==> Writing(fdt) && NoWrap(fdt.h, fdt.v.tab, name)
    requires NUL !in name && len < TWO31 - 16
    modifies fdt.buf, fdt`h, fdt`v
    ensures SwError(old(fdt.h)) != 0 ==> err == -ERR_BADMAGIC
    ensures SwError(old(fdt.h)) == 0 ==> Writing(fdt)
    ensures SwError(old(fdt.h)) == 0 ==>
      if Room(old(fdt.h), NewStringSize(old(fdt.v.tab), name) + 12 + Align4(len))
      then err == 0 && |w| == len && EndsInValue(fdt.h, fdt.v, valp, w)
           && Log(fdt.v) == Log(old(fdt.v)) + [Attr(Prop(name, w))]
           && PropAdded(old(fdt.h), old(fdt.v.tab), name, len, fdt.h, fdt.v.tab)
      else err == -ERR_NOSPACE && Log(fdt.v) == Log(old(fdt.v)) && fdt.v.toks == old(fdt.v.toks)
  {
    hide Unfinished, Written, Word, Log, NameIs, Align4, EndsInValue, FirstOccurrence, MayGrab, U32, WithStringDown,
      DownOff;
    valp, w := 0, [];
    err := SwError(fdt.h);
    if err != 0 { return; }
    var nameoff := FindAddString(fdt, name);
    if nameoff == 0 { return -ERR_NOSPACE, valp, w; }
    ghost var h, m, v := fdt.h, fdt.buf[..], fdt.v;
    Bounds(h, m, v, fdt.rsv);
    var ok, offset := GrabSpace(fdt, 12 + Align4(len));
    if !ok { return -ERR_NOSPACE, valp, w; }
    var prop := fdt.h.offStruct + offset;
    WritePropHeader(fdt.buf, prop, nameoff, len);
    fdt.v, w := PropertyBegun(h, m, v, fdt.rsv, fdt.buf[..], nameoff, name, len);
    return 0, prop + 12, w;
  }

  /** The three header cells of a property. */
  method WritePropHeader(a: array<byte>, prop: nat, nameoff: int, len: u32)
    requires prop + 12 <= a.Length
    modifies a
    ensures a[..] == Written(Written(Written(old(a[..]), prop, Word(FDT_PROP)), prop + 8, Word(U32(nameoff))), prop + 4,
                             Word(len))
  {
    hide Written, Word, U32;
    Memcpy(a, prop, Word(FDT_PROP));
    Memcpy(a, prop + 8, Word(U32(nameoff)));
    Memcpy(a, prop + 4, Word(len));
  }

  /** The header and the strings after a property call. */
  predicate PropAdded(h: Header, tab: bytes, name: bytes, len: nat, h': Header, tab': bytes) {
    && tab' == WithStringDown(tab, name)
    && h'.sizeStruct == h.sizeStruct + 12 + Align4(len) && h'.sizeStrings == h.sizeStrings + NewStringSize(tab, name)
    && h' == h.(sizeStruct := h'.sizeStruct, sizeStrings := h'.sizeStrings)
  }

  /** The last token is a property with value `w`, which is at `valp` in the buffer. */
  predicate EndsInValue(h: Header, v: View, valp: nat, w: bytes) {
    && v.toks != []
    && var t := v.toks[|v.toks| - 1];
      t.TProp? && t.value == w && valp + |w| + |t.pad| == h.offStruct + h.sizeStruct
  }

  lemma PropertyBegun(h: Header, m: bytes, v: View, rs: seq<Rsv>, m': bytes, nameoff: int, name: bytes, len: nat)
    returns (v': View, w: bytes)
    requires Room(h, 12 + Align4(len)) && h.totalsize <= |m| && len < TWO31 - 16
    requires var e := h.offStruct + h.sizeStruct;
      m' == Written(Written(Written(m, e, Word(FDT_PROP)), e + 8, Word(U32(nameoff))), e + 4, Word(len))
    requires NameIs(v.tab, nameoff, name) && Unfinished(h, m, v, rs)
    ensures var h' := h.(sizeStruct := h.sizeStruct + 12 + Align4(len));
      Unfinished(h', m', v', rs) && EndsInValue(h', v', h.offStruct + h.sizeStruct + 12, w)
    ensures v'.tab == v.tab && |w| == len && Log(v') == Log(v) + [Attr(Prop(name, w))]
  {
    hide Unfinished, Written, Word, Log, Aligned, Align4, HasStr, StrAt, TokBytes, Body;
    Bounds(h, m, v, rs);
    var e, an := h.offStruct + h.sizeStruct, Align4(len);
    w := m[e + 12..e + 12 + len];
    var pad := m[e + 12 + len..e + 12 + an];
    var t := TProp(U32(nameoff), w, pad);
    PropertyBytes(m, m', e, U32(nameoff), len);
    NegativeName(nameoff, v.tab);
    TokenWritten(h, m, v, rs, m', t);
    v' := v.(toks := v.toks + [t]);
  }

  /** The three header cells make a property token of what was in the buffer. */
  lemma PropertyBytes(m: bytes, m': bytes, e: nat, no: u32, len: nat)
    requires e + 12 + Align4(len) <= |m| && len < TWO31
    requires m' == Written(Written(Written(m, e, Word(FDT_PROP)), e + 8, Word(no)), e + 4, Word(len))
    ensures var t, n := TProp(no, m[e + 12..e + 12 + len], m[e + 12 + len..e + 12 + Align4(len)]), 12 + Align4(len);
      && WfTok(t) && |TokBytes(t)| == n && |m'| == |m|
      && m'[..e] == m[..e] && m'[e..e + n] == TokBytes(t) && m'[e + n..] == m[e + n..]
  {
    hide Written, Word, Aligned, Align4, TokBytes, Body;
    var an := Align4(len);
    Align4Aligned(len);
    var w, pad := m[e + 12..e + 12 + len], m[e + 12 + len..e + 12 + an];
    HeaderBytes(m, m', e, Word(FDT_PROP), Word(len), Word(no));
    SuffixParts(m, m', e + 12, e + 12 + len, e + 12 + an);
    PropInMemory(m', e, no, w, pad);
    TokLen(no, w, pad);
  }

  lemma SuffixParts(m: bytes, m': bytes, u: nat, x: nat, y: nat)
    requires u <= x <= y <= |m| == |m'| && m'[u..] == m[u..]
    ensures m'[u..x] == m[u..x] && m'[x..y] == m[x..y] && m'[y..] == m[y..]
  {
    SameSuffix(m, m', u, u, x);
    SameSuffix(m, m', u, x, y);
    SameSuffix(m, m', u, y, |m|);
    assert m'[y..] == m'[y..|m|] && m[y..] == m[y..|m|];
  }

  lemma NegativeName(nameoff: int, tab: bytes)
    requires -TWO31 < nameoff < 0 && FromEnd(U32(nameoff), tab) && |tab| < TWO31
    ensures U32(U32(nameoff) + |tab|) == nameoff + |tab|
  {
    assert U32(nameoff) == nameoff + TWO32;
  }

  /** `fdt_property`. */
  method Property(fdt: Blob, name: bytes, val: bytes) returns (err: int)
    requires SwError(fdt.h) == 0 ==> Writing(fdt) && NoWrap(fdt.h, fdt.v.tab, name)
    requires NUL !in name && |val| < TWO31 - 16
    modifies fdt.buf, fdt`h, fdt`v
    ensures SwError(old(fdt.h)) != 0 ==> err == -ERR_BADMAGIC
    ensures SwError(old(fdt.h)) == 0 ==> Writing(fdt)
    ensures SwError(old(fdt.h)) == 0 ==>
      if Room(old(fdt.h), NewStringSize(old(fdt.v.tab), name) + 12 + Align4(|val|))
      then err == 0 && Log(fdt.v) == Log(old(fdt.v)) + [Attr(Prop(name, val))]
           && PropAdded(old(fdt.h), old(fdt.v.tab), name, |val|, fdt.h, fdt.v.tab)
      else err == -ERR_NOSPACE && Log(fdt.v) == Log(old(fdt.v))
  {
    hide Unfinished, Written, Word, Log, FromEnd, Align4, EndsInValue, FirstOccurrence, StrAt;
    var valp: nat;
    ghost var w: bytes;
    err, valp, w := PropertyPlaceholder(fdt, name, |val|);
    if err != 0 { return; }
    ghost var m, v := fdt.buf[..], fdt.v;
    LastInside(fdt.h, m, v, fdt.rsv, valp, w);
    Memcpy(fdt.buf, valp, val);
    fdt.v := LastRewritten(fdt.h, m, v, fdt.rsv, fdt.buf[..], valp, w, val, Log(old(fdt.v)), name);
  }

  lemma LastInside(h: Header, m: bytes, v: View, rs: seq<Rsv>, valp: nat, w: bytes)
    requires Unfinished(h, m, v, rs) && EndsInValue(h, v, valp, w)
    ensures valp + |w| <= |m|
  {
    hide Ser;
  }

  /** The blob before its last token was written. */
  lemma LastDropped(h: Header, m: bytes, v: View, rs: seq<Rsv>, ts: seq<Token>, t: Token)
    requires Unfinished(h, m, v, rs) && v.toks == ts + [t]
    ensures h.sizeStruct == |Ser(ts)| + |TokBytes(t)| && h.offStruct + h.sizeStruct <= |m|
    ensures var v0, h0, e := v.(toks := ts), h.(sizeStruct := |Ser(ts)|), h.offStruct + |Ser(ts)|;
      && Unfinished(h0, m, v0, rs) && Log(v) == Log(v0) + Evts(Rebase(t, |v.tab|), v.tab)
      && m[e..e + |TokBytes(t)|] == TokBytes(t)
    ensures WfTok(t) && !t.TNop? && !t.TFin? && (t.TProp? ==> FromEnd(t.nameoff, v.tab))
  {
    hide Ser, Entries, TokBytes, Abs, FromEnd, Evts;
    SerAppend(ts, [t]);
    SerOne(t);
    var w, x, e := Ser(ts), TokBytes(t), h.offStruct + |Ser(ts)|;
    assert Ser(v.toks) == w + x;
    Sub(m, h.offStruct, w + x, 0, |w|);
    Sub(m, h.offStruct, w + x, |w|, |w| + |x|);
    assert v.toks[|ts|] == t;
    assert forall i :: 0 <= i < |ts| ==> v.toks[i] == ts[i];
    LogMore(v, ts, t);
  }

  /** The value of the last property, overwritten. */
  lemma LastRewritten(h: Header, m: bytes, v: View, rs: seq<Rsv>, m': bytes, valp: nat, w: bytes, val: bytes,
                      log: seq<Evt>, name: bytes) returns (v': View)
    requires Unfinished(h, m, v, rs) && EndsInValue(h, v, valp, w) && Log(v) == log + [Attr(Prop(name, w))]
    requires |val| == |w| && valp + |w| <= |m| && m' == Written(m, valp, val)
    ensures Unfinished(h, m', v', rs) && v'.tab == v.tab && Log(v') == log + [Attr(Prop(name, val))]
  {
    hide Unfinished, Written, Word, Log, Aligned, Align4, HasStr, StrAt, FromEnd, TokBytes, Body, Ser, U32;
    var ts, t := v.toks[..|v.toks| - 1], v.toks[|v.toks| - 1];
    assert v.toks == ts + [t];
    LastDropped(h, m, v, rs, ts, t);
    var t' := TProp(t.nameoff, val, t.pad);
    var e, h0, v0 := h.offStruct + |Ser(ts)|, h.(sizeStruct := |Ser(ts)|), v.(toks := ts);
    TokLen(t.nameoff, w, t.pad);
    TokLen(t.nameoff, val, t.pad);
    ValueBytes(m, m', e, t.nameoff, w, t.pad, val);
    Bounds(h, m, v, rs);
    TokenWritten(h0, m, v0, rs, m', t');
    v' := v.(toks := ts + [t']);
    SameLast(log, Log(v0), Attr(Prop(name, w)), Evts(Rebase(t, |v.tab|), v.tab)[0]);
  }

  lemma SameLast<T>(a: seq<T>, b: seq<T>, x: T, y: T)
    requires a + [x] == b + [y]
    ensures a == b && x == y
  {
    assert (a + [x])[..|a|] == a && (b + [y])[..|b|] == b;
    assert (a + [x])[|a|] == x && (b + [y])[|b|] == y;
  }

  /** A value overwritten inside the bytes of its token. */
  lemma ValueBytes(m: bytes, m': bytes, e: nat, no: u32, w: bytes, pad: bytes, val: bytes)
    requires |val| == |w| < TWO31 && e + 12 + |w| + |pad| <= |m| && m' == Written(m, e + 12, val)
    requires m[e..e + 12 + |w| + |pad|] == TokBytes(TProp(no, w, pad))
    ensures var n := 12 + |w| + |pad|;
      |m'| == |m| && m'[..e] == m[..e] && m'[e..e + n] == TokBytes(TProp(no, val, pad)) && m'[e + n..] == m[e + n..]
  {
    hide Word, TokBytes, Written;
    var n, hd := 12 + |w| + |pad|, Word(FDT_PROP) + (Word(|w|) + Word(no));
    TokSplit(no, w, pad);
    TokSplit(no, val, pad);
    assert m == m[..e] + m[e..e + n] + m[e + n..];
    WrittenInside(m[..e], hd, w, pad, m[e + n..], 0, val);
    assert Written(w, 0, val) == val by { WrittenAll(w, val); }
    SplitThree(m[..e], hd + val + pad, m[e + n..]);
  }

  lemma SplitThree(a: bytes, b: bytes, c: bytes)
    ensures var m := a + b + c; m[..|a|] == a && m[|a|..|a| + |b|] == b && m[|a| + |b|..] == c
  {
  }

  /** `fdt_finish` part-way: the names of the first `i` tokens are positive offsets, the others still negative ones. */
  function Mixed(ts: seq<Token>, i: nat, n: nat): (r: seq<Token>)
    requires i <= |ts|
    ensures |r| == |ts|
  {
    Rebased(ts[..i], n) + ts[i..]
  }

  lemma {:induction false} RebasedSize(ts: seq<Token>, n: nat)
    ensures |Ser(Rebased(ts, n))| == |Ser(ts)|
  {
    if ts != [] {
      hide TokBytes;
      assert Rebased(ts, n)[1..] == Rebased(ts[1..], n);
      RebasedSize(ts[1..], n);
      RebaseLen(ts[0], n);
    }
  }

  lemma RebaseLen(t: Token, n: nat)
    ensures |TokBytes(Rebase(t, n))| == |TokBytes(t)| && (WfTok(t) ==> WfTok(Rebase(t, n)))
  {
  }

  /** The blob at token `i` of the walk of `fdt_finish`. */
  predicate Relocating(h: Header, m: bytes, ts: seq<Token>, i: nat, a: bytes, z: bytes) {
    && i <= |ts| && Wf(ts) && |a| == h.offStruct && h.version == 17
    && h.sizeStruct == |Ser(ts)| && h.offStruct + h.sizeStruct <= h.totalsize <= |m| < TWO31
    && m == a + Ser(Mixed(ts, i, h.sizeStrings)) + z && |Ser(Mixed(ts, i, h.sizeStrings))| == |Ser(ts)|
  }

  /** What the walk meets at token `i`. */
  lemma AtToken(h: Header, m: bytes, ts: seq<Token>, i: nat, a: bytes, z: bytes)
    requires Relocating(h, m, ts, i, a, z) && i < |ts|
    ensures TagAt(Region(h, m), Off(ts, i)) == (TagOf(ts[i]), Off(ts, i + 1))
    ensures Off(ts, i) < Off(ts, i + 1) <= |Region(h, m)| == |Ser(ts)| && h.offStruct + Off(ts, i + 1) <= |m|
    ensures Off(ts, i) + |TokBytes(ts[i])| == Off(ts, i + 1)
    ensures ts[i].TProp? ==> Off(ts, i) + 12 <= Off(ts, i + 1) && Be32(Region(h, m), Off(ts, i) + 8) == ts[i].nameoff
  {
    hide Ser, TagAt, TokBytes, WfTok, Off, Cell, Word, Body;
    var n := h.sizeStrings;
    var x := Mixed(ts, i, n);
    MixedOff(ts, i, n);
    OffStep(ts, i);
    SplitThree(a, Ser(x), z);
    assert Region(h, m) == Ser(x);
    MixedWf(ts, i, n);
    NextTagAt(Ser(x), x, i);
    if ts[i].TProp? {
      BytesAt(Ser(x), x, i);
      var t := ts[i];
      TokLen(t.nameoff, t.value, t.pad);
      NameCell(Ser(x), Off(ts, i), TokBytes(t), t);
    }
  }

  lemma NameCell(s: bytes, o: nat, w: bytes, t: Token)
    requires t.TProp? && |t.value| < TWO31 && w == TokBytes(t) && o + |w| <= |s| && s[o..o + |w|] == w
    ensures o + 12 <= |s| && Be32(s, o + 8) == t.nameoff
  {
    hide TokBytes, Cell, Word;
    PropTail(t.nameoff, t.value, t.pad);
    PropCells(s, o, w, Word(|t.value|), Word(t.nameoff), t.value, t.pad);
    CellOfWord(t.nameoff);
  }

  lemma MixedWf(ts: seq<Token>, i: nat, n: nat)
    requires i <= |ts| && Wf(ts)
    ensures Wf(Mixed(ts, i, n))
  {
    hide WfTok;
    forall k | 0 <= k < |ts| ensures WfTok(Mixed(ts, i, n)[k]) { RebaseLen(ts[k], n); }
  }

  lemma MixedOff(ts: seq<Token>, i: nat, n: nat)
    requires i < |ts|
    ensures Mixed(ts, i, n)[i] == ts[i]
    ensures Off(Mixed(ts, i, n), i) == Off(ts, i) && Off(Mixed(ts, i, n), i + 1) == Off(ts, i + 1)
  {
    hide Ser, TokBytes;
    var x := Mixed(ts, i, n);
    assert x[..i] == Rebased(ts[..i], n);
    RebasedSize(ts[..i], n);
    OffStep(x, i);
    OffStep(ts, i);
  }

  /** Rewriting the name cell of token `i`. */
  lemma Relocated(h: Header, m: bytes, m': bytes, ts: seq<Token>, i: nat, a: bytes, z: bytes)
    requires Relocating(h, m, ts, i, a, z) && i < |ts| && h.offStruct + Off(ts, i + 1) <= |m|
    requires ts[i].TProp? && Off(ts, i) + 12 <= Off(ts, i + 1)
    requires m' == Written(m, h.offStruct + Off(ts, i) + 8, Word(U32(ts[i].nameoff + h.sizeStrings)))
    ensures Relocating(h, m', ts, i + 1, a, z)
  {
    hide Ser, TokBytes, Written, U32, Word;
    var n, t := h.sizeStrings, ts[i];
    var x, y := Mixed(ts, i, n), Mixed(ts, i + 1, n);
    MixedParts(ts, i, n);
    var p, q := Ser(Rebased(ts[..i], n)), Ser(ts[i + 1..]);
    RebasedSize(ts[..i], n);
    var hd, tl := Word(FDT_PROP) + Word(U32(|t.value|)), t.value + t.pad;
    PropPieces(t.nameoff, t.value, t.pad);
    PropPieces(U32(t.nameoff + n), t.value, t.pad);
    CellRewritten(a, p, hd, Word(t.nameoff), Word(U32(t.nameoff + n)), tl, q, z);
    RebaseLen(t, n);
  }

  lemma MixedParts(ts: seq<Token>, i: nat, n: nat)
    requires i < |ts|
    ensures Ser(Mixed(ts, i, n)) == Ser(Rebased(ts[..i], n)) + TokBytes(ts[i]) + Ser(ts[i + 1..])
    ensures Ser(Mixed(ts, i + 1, n)) == Ser(Rebased(ts[..i], n)) + TokBytes(Rebase(ts[i], n)) + Ser(ts[i + 1..])
  {
    hide Ser, TokBytes;
    var a, t, u, b := Rebased(ts[..i], n), [ts[i]], [Rebase(ts[i], n)], ts[i + 1..];
    assert Mixed(ts, i, n) == (a + t) + b;
    SerAppend(a + t, b);
    SerAppend(a, t);
    SerOne(ts[i]);
    assert Mixed(ts, i + 1, n) == (a + u) + b;
    SerAppend(a + u, b);
    SerAppend(a, u);
    SerOne(Rebase(ts[i], n));
  }

  lemma PropPieces(no: u32, value: bytes, pad: bytes)
    ensures TokBytes(TProp(no, value, pad)) == (Word(FDT_PROP) + Word(U32(|value|))) + Word(no) + (value + pad)
  {
    hide Word, U32;
  }

  lemma CellRewritten(a: bytes, p: bytes, hd: bytes, c: bytes, c': bytes, tl: bytes, q: bytes, z: bytes)
    requires |c| == |c'|
    ensures Written(a + (p + (hd + c + tl) + q) + z, |a| + |p| + |hd|, c') == a + (p + (hd + c' + tl) + q) + z
  {
    assert a + (p + (hd + c + tl) + q) + z == (a + p + hd) + c + (tl + q + z);
    assert a + (p + (hd + c' + tl) + q) + z == (a + p + hd) + c' + (tl + q + z);
  }

  /** A token without a name is passed over. */
  lemma PassedOver(h: Header, m: bytes, ts: seq<Token>, i: nat, a: bytes, z: bytes)
    requires Relocating(h, m, ts, i, a, z) && i < |ts| && !ts[i].TProp?
    ensures Relocating(h, m, ts, i + 1, a, z)
  {
    hide Ser;
    assert Mixed(ts, i + 1, h.sizeStrings) == Mixed(ts, i, h.sizeStrings);
  }

  /** Memory once FDT_END is written and the table moved behind it. */
  lemma TableMoved(h: Header, m: bytes, v: View, rs: seq<Rsv>, m1: bytes, m2: bytes) returns (a: bytes, z: bytes)
    requires Room(h, 4) && h.totalsize <= |m|
    requires m1 == Written(m, h.offStruct + h.sizeStruct, Word(FDT_END))
    requires m2 == Moved(m1, h.offStruct + h.sizeStruct + 4, h.totalsize - h.sizeStrings, h.sizeStrings)
    requires Unfinished(h, m, v, rs)
    ensures Relocating(h.(sizeStruct := h.sizeStruct + 4), m2, v.toks + [TFin], 0, a, z)
    ensures Plain(v.toks) && 48 <= |a| && a[48..] == Entries(rs) && h.sizeStrings <= |z| && z[..h.sizeStrings] == v.tab
  {
    hide Ser, Entries, Written, Moved, AllFromEnd, Plain, TokBytes, Word, Wf, Mixed;
    var o, e, ts := h.offStruct, h.offStruct + h.sizeStruct, v.toks + [TFin];
    SerAppend(v.toks, [TFin]);
    SerOne(TFin);
    ShortBytes(TFin);
    EndAdded(v.toks, h.sizeStrings);
    TableMovedBytes(m, m1, m2, o, e, h.totalsize - h.sizeStrings, h.sizeStrings, Word(FDT_END));
    a, z := m2[..o], m2[e + 4..];
    SubSlices(m2, o, e + 4, h.sizeStrings);
  }

  lemma WfFin()
    ensures WfTok(TFin)
  {
  }

  /** FDT_END behind well-formed tokens. */
  lemma EndAdded(ts: seq<Token>, n: nat)
    requires Wf(ts)
    ensures Wf(ts + [TFin]) && Mixed(ts + [TFin], 0, n) == ts + [TFin]
  {
    WfFin();
    hide WfTok;
  }

  /** The bytes that change when a word is written at `e` and `d..d + n` moved behind it. */
  lemma TableMovedBytes(m: bytes, m1: bytes, m2: bytes, o: nat, e: nat, d: nat, n: nat, w: bytes)
    requires 48 <= o <= e && e + |w| <= d && d + n <= |m|
    requires m1 == Written(m, e, w) && m2 == Moved(m1, e + |w|, d, n)
    ensures |m2| == |m| && m2[48..o] == m[48..o] && m2[o..e + |w|] == m[o..e] + w
    ensures m2[e + |w|..e + |w| + n] == m[d..d + n]
  {
    hide Written, Moved;
    WrittenParts(m, e, w);
    MovedParts(m1, e + |w|, d, n);
    SamePrefix(m, m1, e, 48, o);
    SamePrefix(m, m1, e, o, e);
    SamePrefix(m1, m2, e + |w|, 48, o);
    SamePrefix(m1, m2, e + |w|, o, e);
    SamePrefix(m1, m2, e + |w|, e, e + |w|);
    SameSuffix(m, m1, e + |w|, d, d + n);
    SliceJoin(m2, o, e, e + |w|);
  }

  /** A sequence in three parts, and stretches of the outer two. */
  lemma SubSlices(m: bytes, o: nat, e: nat, n: nat)
    requires 48 <= o <= e && e + n <= |m|
    ensures m == m[..o] + m[o..e] + m[e..] && m[..o][48..] == m[48..o] && m[e..][..n] == m[e..e + n]
  {
  }

  /** `fdt_finish`. If the calls so far spell a tree, the blob now holds that tree. */
  method Finish(fdt: Blob, ghost t: Tree, ghost rs: seq<Rsv>) returns (err: int)
    requires SwError(fdt.h) == 0 ==> Writing(fdt)
    modifies fdt.buf, fdt
    ensures SwError(old(fdt.h)) != 0 ==> err == -ERR_BADMAGIC
    ensures SwError(old(fdt.h)) == 0 ==> err == if Room(old(fdt.h), 4) then 0 else -ERR_NOSPACE
    ensures err == -ERR_NOSPACE ==> Writing(fdt) && fdt.v == old(fdt.v) && fdt.rsv == old(fdt.rsv)
    ensures err == 0 ==> fdt.h == FinishedHeader(old(fdt.h))
    ensures err == 0 && Log(old(fdt.v)) == Flatten(t) && Terminated(old(fdt.rsv), rs) ==>
      fdt.Valid() && fdt.v.tree == t && fdt.rsv == rs
  {
    hide Unfinished, Written, Moved, Log, Word, Flatten, Terminated, Relocating, Editable, FinishedHeader, TagAt, Off,
      Ser, Region;
    err := SwError(fdt.h);
    if err != 0 { return; }
    ghost var h, m, v := fdt.h, fdt.buf[..], fdt.v;
    Bounds(h, m, v, fdt.rsv);
    var ok, at := GrabSpace(fdt, 4);
    if !ok { return -ERR_NOSPACE; }
    Memcpy(fdt.buf, fdt.h.offStruct + at, Word(FDT_END));
    ghost var m1 := fdt.buf[..];
    var oldstroffset := fdt.h.totalsize - fdt.h.sizeStrings;
    var newstroffset := fdt.h.offStruct + fdt.h.sizeStruct;
    Memmove(fdt.buf, newstroffset, oldstroffset, fdt.h.sizeStrings);
    ghost var a, z := TableMoved(h, m, v, fdt.rsv, m1, fdt.buf[..]);
    fdt.h := fdt.h.(offStrings := newstroffset);
    SameMoving(h.(sizeStruct := h.sizeStruct + 4), fdt.h, fdt.buf[..], v.toks + [TFin], a, z);
    Relocate(fdt, v.toks + [TFin], a, z, v.toks);
    fdt.h := fdt.h.(totalsize := newstroffset + fdt.h.sizeStrings, magic := FDT_MAGIC);
    assert fdt.h == FinishedHeader(h) by { HeaderFinished(h, fdt.h); }
    if Log(v) == Flatten(t) && Terminated(fdt.rsv, rs) {
      fdt.v := FinishedView(h, v, fdt.rsv, m, fdt.buf[..], a, z, t, rs);
      fdt.rsv := rs;
    }
    return 0;
  }

  /** The header that `fdt_finish` leaves. */
  function FinishedHeader(h: Header): Header
    requires Room(h, 4) && h.totalsize < TWO31
  {
    h.(magic := FDT_MAGIC, sizeStruct := h.sizeStruct + 4, offStrings := h.offStruct + h.sizeStruct + 4,
       totalsize := h.offStruct + h.sizeStruct + 4 + h.sizeStrings)
  }

  lemma HeaderFinished(h: Header, h': Header)
    requires Room(h, 4) && h.totalsize < TWO31
    requires h' == h.(sizeStruct := h.sizeStruct + 4).(offStrings := h.offStruct + h.sizeStruct + 4)
                    .(totalsize := h.offStruct + h.sizeStruct + 4 + h.sizeStrings, magic := FDT_MAGIC)
    ensures h' == FinishedHeader(h)
  {
  }

  /** The entries are `rs` and the terminator. */
  predicate Terminated(entries: seq<Rsv>, rs: seq<Rsv>) {
    entries == rs + [Rsv(0, 0)] && forall i :: 0 <= i < |rs| ==> rs[i].size != 0
  }

  lemma SameMoving(h: Header, h': Header, m: bytes, ts: seq<Token>, a: bytes, z: bytes)
    requires Relocating(h, m, ts, 0, a, z) && h' == h.(offStrings := h'.offStrings)
    ensures Relocating(h', m, ts, 0, a, z)
  {
    hide Ser;
  }

  /** The walk of `fdt_finish`: every name offset is moved up by the size of the table. */
  method Relocate(fdt: Blob, ghost ts: seq<Token>, ghost a: bytes, ghost z: bytes, ghost body: seq<Token>)
    requires Relocating(fdt.h, fdt.buf[..], ts, 0, a, z) && ts == body + [TFin] && Plain(body)
    modifies fdt.buf
    ensures Relocating(fdt.h, fdt.buf[..], ts, |body|, a, z)
  {
    hide Ser, TagAt, Off, Relocating, Written, Word, Region, Cell;
    Sized(fdt.h, fdt.buf[..], ts, 0, a, z);
    OffZero(ts);
    ghost var i: nat := 0;
    var offset := 0;
    AtToken(fdt.h, fdt.buf[..], ts, 0, a, z);
    var tag, nextoffset := NextTag(fdt, offset);
    while tag != FDT_END
      invariant i <= |body| && offset == Off(ts, i) && Relocating(fdt.h, fdt.buf[..], ts, i, a, z)
      invariant tag == TagOf(ts[i]) && nextoffset == Off(ts, i + 1)
      decreases |ts| - i
    {
      AtToken(fdt.h, fdt.buf[..], ts, i, a, z);
      ghost var m := fdt.buf[..];
      if tag == FDT_PROP {
        var nameoff := StructCell(fdt, offset + 8);
        Memcpy(fdt.buf, fdt.h.offStruct + offset + 8, Word(U32(nameoff + fdt.h.sizeStrings)));
        Relocated(fdt.h, m, fdt.buf[..], ts, i, a, z);
      } else {
        PassedOver(fdt.h, m, ts, i, a, z);
      }
      i := i + 1;
      offset := nextoffset;
      AtToken(fdt.h, fdt.buf[..], ts, i, a, z);
      tag, nextoffset := NextTag(fdt, offset);
    }
  }

  lemma Sized(h: Header, m: bytes, ts: seq<Token>, i: nat, a: bytes, z: bytes)
    requires Relocating(h, m, ts, i, a, z)
    ensures h.totalsize <= |m| < TWO31
  {
  }

  /** What a finished blob means. */
  lemma FinishedView(h: Header, v: View, entries: seq<Rsv>, m: bytes, m': bytes, a: bytes, z: bytes, t: Tree,
                     rs: seq<Rsv>)
    returns (v': View)
    requires Unfinished(h, m, v, entries) && Room(h, 4) && h.totalsize < TWO31 && |m'| == |m|
    requires var h1 := h.(sizeStruct := h.sizeStruct + 4, offStrings := h.offStruct + h.sizeStruct + 4);
      Relocating(h1, m', v.toks + [TFin], |v.toks|, a, z)
    requires 48 <= |a| && a[48..] == Entries(entries) && h.sizeStrings <= |z| && z[..h.sizeStrings] == v.tab
    requires Log(v) == Flatten(t) && Terminated(entries, rs)
    ensures Editable(FinishedHeader(h), m', v', rs) && v'.tree == t
  {
    hide Ser, Entries, Flatten, Abs, Reserves, AllFromEnd;
    var n, ts := |v.tab|, v.toks + [TFin];
    var x, h2 := Mixed(ts, |v.toks|, n), FinishedHeader(h);
    assert x == Rebased(v.toks, n) + [TFin];
    var s := Ser(x);
    v' := View(s, x, v.tab, t);
    FinishedOk(v, t, s, x);
    assert m'[h.offStruct..h.offStruct + |s|] == s by { SplitThree(a, s, z); }
    assert m'[h2.offStrings..h2.offStrings + n] == v.tab by {
      SplitThree(a + s, z[..n], z[n..]);
      TailSlice(a, s, z, n);
    }
    assert m'[48..h.offStruct] == Entries(entries) by { SplitThree(a, s, z); assert m'[48..|a|] == a[48..]; }
    EntriesReserve(rs);
    EditableBlocks(h2, m', v', rs);
  }

  lemma TailSlice(a: bytes, s: bytes, z: bytes, n: nat)
    requires n <= |z|
    ensures a + s + z == (a + s) + z[..n] + z[n..]
  {
  }

  /** The entries and the terminator are a reservation block. */
  lemma {:induction false} EntriesReserve(rs: seq<Rsv>)
    requires forall i :: 0 <= i < |rs| ==> rs[i].size != 0
    ensures Reserves(Entries(rs + [Rsv(0, 0)]), rs)
  {
    hide BigEndian;
    var all := rs + [Rsv(0, 0)];
    if rs == [] {
      assert all[..0] == [] && Entries([]) == [];
      assert Entries(all) == RsvBytes(Rsv(0, 0));
    } else {
      assert all[1..] == rs[1..] + [Rsv(0, 0)];
      EntriesReserve(rs[1..]);
      EntriesFirst(all);
    }
  }

  lemma {:induction false} EntriesFirst(rs: seq<Rsv>)
    requires rs != []
    ensures Entries(rs) == RsvBytes(rs[0]) + Entries(rs[1..])
    decreases |rs|
  {
    hide RsvBytes;
    var z := rs[|rs| - 1];
    if |rs| == 1 {
      assert rs[..0] == [] && rs[1..] == [] && Entries([]) == [];
    } else {
      EntriesFirst(rs[..|rs| - 1]);
      assert rs[1..][..|rs| - 2] == rs[..|rs| - 1][1..];
      assert rs[1..][|rs| - 2] == z;
    }
  }

  lemma FinishedOk(v: View, t: Tree, s: bytes, x: seq<Token>)
    requires Wf(v.toks) && Plain(v.toks) && AllFromEnd(v.toks, v.tab) && |v.tab| < TWO31
    requires Log(v) == Flatten(t) && x == Rebased(v.toks, |v.tab|) + [TFin] && s == Ser(x) && |s| < TWO31
    ensures View(s, x, v.tab, t).Ok()
  {
    hide Ser, WfTok, HasStr, StrAt, TokBytes, FromEnd;
    var ts, n := v.toks, |v.tab|;
    var r := Rebased(ts, n);
    forall k | 0 <= k < |x| ensures WfTok(x[k]) {
      if k < |ts| { RebaseLen(ts[k], n); } else { FinOk(); }
    }
    forall k | 0 <= k < |x| && x[k].TProp? ensures HasStr(v.tab, x[k].nameoff) {
      assert ts[k].TProp?;
      NameGrow(ts[k].nameoff, [], v.tab);
    }
    AbsAppend(r, [TFin], v.tab);
    AbsOne(TFin, v.tab);
    FirstOpens(r, v.tab, t);
  }

  lemma FinOk()
    ensures WfTok(TFin)
  {
  }

  lemma FirstOpens(r: seq<Token>, tab: bytes, t: Tree)
    requires Abs(r, tab) == Flatten(t) && Plain(r)
    ensures r != [] && r[0].TBegin?
  {
    hide StrAt;
    assert Flatten(t)[0] == Open(t.name);
  }
}
