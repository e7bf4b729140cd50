/** The numbers, the names and the byte layout of the format, spelled out. */
module Formats {
  import opened Bytes
  import opened Strings
  import opened CString
  import opened Trees
  import opened Tokens
  import opened Lexer
  import opened Walk
  import opened Views
  import opened Fdt
  import opened FdtRo
  import opened FdtRoPath
  import opened FdtRoPhandle
  import opened FdtRw
  import opened FdtRwBlocks
  import opened FdtOpen
  import FdtSw
  import FdtOverlay
  import opened Merge
  import opened References
  import opened Fixups
  import opened Symbols

  /** The bytes of a text. */
  function Ascii(s: string): (r: bytes)
    requires forall i :: 0 <= i < |s| ==> s[i] < 128 as char
    ensures |r| == |s|
  {
    seq(|s|, i requires 0 <= i < |s| => s[i] as int as byte)
  }

  /** The names that the library looks for. */
  lemma PhandleNames()
    ensures PHANDLE == Ascii("phandle") && LINUX_PHANDLE == Ascii("linux,phandle")
  {
  }

  lemma FragmentNames()
    ensures TARGET == Ascii("target") && TARGET_PATH == Ascii("target-path") && OVERLAY == Ascii("__overlay__")
  {
  }

  lemma FixupNames()
    ensures FIXUPS == Ascii("__fixups__") && LOCAL_FIXUPS == Ascii("__local_fixups__")
  {
  }

  lemma SymbolNames()
    ensures SYMBOLS == Ascii("__symbols__") && OVERLAY_DIR == Ascii("/__overlay__/")
    ensures [SLASH, COLON, AT_SIGN] == Ascii("/:@")
  {
  }

  /** The error codes, and the phandle that names nothing. */
  lemma ErrorNumbers()
    ensures ERR_NOTFOUND == 1 && ERR_EXISTS == 2 && ERR_NOSPACE == 3 && ERR_BADOFFSET == 4 && ERR_BADPHANDLE == 6
    ensures ERR_BADSTATE == 7 && ERR_TRUNCATED == 8 && ERR_BADMAGIC == 9 && ERR_BADVERSION == 10
    ensures ERR_BADSTRUCTURE == 11 && ERR_BADLAYOUT == 12 && ERR_INTERNAL == 13 && ERR_BADVALUE == 15
    ensures ERR_BADOVERLAY == 16 && ERR_NOPHANDLES == 17 && NO_PHANDLE == 0xffff_ffff
    ensures FdtOverlay.ERASED == 0xffff_ffff
  {
  }

  /** Which headers `fdt_check_header` accepts, and what it says of the others. */
  lemma HeaderAccepted(h: Header)
    ensures HeaderError(h) == 0 <==>
      (h.magic == 0xd00d_feed && h.version >= 16 && h.lastComp <= 17) || (h.magic == 0x2ff2_0112 && h.sizeStruct != 0)
    ensures h.magic == 0xd00d_feed && (h.version < 16 || h.lastComp > 17) ==> HeaderError(h) == -10
    ensures h.magic == 0x2ff2_0112 && h.sizeStruct == 0 ==> HeaderError(h) == -7
    ensures h.magic != 0xd00d_feed && h.magic != 0x2ff2_0112 ==> HeaderError(h) == -9
  {
  }

  /** Which headers the editing functions accept: besides, version 17 or later and blocks in order. */
  lemma EditingAccepted(h: Header)
    ensures HeaderError(h) != 0 ==> RwError(h) == HeaderError(h)
    ensures HeaderError(h) == 0 && h.version < 17 ==> RwError(h) == -10
    ensures HeaderError(h) == 0 && h.version >= 17 ==>
      RwError(h) == if
          && 40 <= h.offRsv && U32(h.offRsv + 16) <= h.offStruct && U32(h.offStruct + h.sizeStruct) <= h.offStrings
          && U32(h.offStrings + h.sizeStrings) <= h.totalsize
        then 0 else -12
    ensures FdtSw.SwError(h) == if h.magic == 0x2ff2_0112 then 0 else -9
  {
  }

  /** Before version 17 a header does not say how large the structure block is, and a reader may go up to the end of
      the blob; from version 17 on it may not leave the block. */
  lemma RegionOf(h: Header, m: bytes, size: u32)
    requires h.totalsize <= |m| && h.offStruct <= h.totalsize
    ensures h.version < 17 ==>
      Region(h, m) == m[h.offStruct..h.totalsize] && Region(h.(sizeStruct := size), m) == Region(h, m)
    ensures h.version >= 17 && h.offStruct + h.sizeStruct <= h.totalsize ==>
      Region(h, m) == m[h.offStruct..h.offStruct + h.sizeStruct]
  {
  }

  /** A complete blob of version 17 whose header says 16 is complete too, whatever the field says that version 16 does
      not have. */
  lemma OlderIsComplete(h: Header, m: bytes, v: View, rsv: seq<Rsv>, size: u32) returns (v': View)
    requires Complete(h, m, v, rsv) && h.version == 17
    ensures v'.tree == v.tree && v'.toks == v.toks && v'.tab == v.tab
    ensures Complete(h.(version := 16, lastComp := 16, sizeStruct := size), m, v', rsv)
  {
    hide Ser, Reserves, Flatten, Wf, Named, Abs;
    var h' := h.(version := 16, lastComp := 16, sizeStruct := size);
    NotEmpty(v);
    RegionEnd(h, m, v);
    RegionOf(h, m, size);
    RegionOf(h', m, size);
    v' := v.(s := Region(h', m));
  }

  /** A complete blob of any version from 16 on, with the numbers of the format. */
  ghost predicate Acceptable(h: Header, m: bytes, v: View, rsv: seq<Rsv>) {
    && h.magic == 0xd00d_feed && h.version >= 16 && h.lastComp <= 17
    && Legible(h, m, v) && h.offStrings + h.sizeStrings <= h.totalsize && h.offRsv <= h.totalsize
    && Reserves(m[h.offRsv..h.totalsize], rsv)
    && (h.version >= 17 ==> v.s == Ser(v.toks) && h.sizeStruct == |v.s|)
    && (forall i :: 0 <= i < |v.toks| ==> (v.toks[i].TFin? <==> i + 1 == |v.toks|))
  }

  lemma AcceptableIsComplete(h: Header, m: bytes, v: View, rsv: seq<Rsv>)
    ensures Acceptable(h, m, v, rsv) <==> Complete(h, m, v, rsv)
  {
    hide Legible, Reserves, Ser;
    HeaderAccepted(h);
  }

  /** The least buffer that `fdt_open_into` can use: of the old size when the blocks are in order, else of the size that
      they need, behind the old blob when the source is the destination. */
  function LeastBuffer(h: Header, structSize: nat, entries: nat, inPlace: bool): nat {
    var rsvSize := 16 * entries + 16;
    if 40 <= h.offRsv && h.offRsv + rsvSize <= h.offStruct && h.offStruct + structSize <= h.offStrings
      && h.offStrings + h.sizeStrings <= h.totalsize
    then h.totalsize
    else (if inPlace then h.totalsize else 0) + 40 + rsvSize + structSize + h.sizeStrings
  }

  /** `fdt_open_into` on every complete blob from version 16 on. */
  method OpenComplete(fdt: Blob, dst: Blob, bufsize: nat) returns (err: int)
    requires fdt.Sane() && bufsize <= dst.buf.Length < TWO31 && (dst == fdt || dst.buf != fdt.buf)
    requires Acceptable(fdt.h, fdt.buf[..], fdt.v, fdt.rsv)
    modifies dst, dst.buf
    ensures var least := LeastBuffer(old(fdt.h), |Ser(old(fdt.v.toks))|, |old(fdt.rsv)|, dst == fdt);
      err == if bufsize < least then -3 else 0
    ensures err == 0 ==>
      && dst.Valid() && dst.h.version == 17 && dst.h.totalsize == bufsize
      && dst.v.tree == old(fdt.v.tree) && dst.v.tab == old(fdt.v.tab) && dst.rsv == old(fdt.rsv)
  {
    hide Editable, Legible, Complete, Ser, View.Ok, Reserves;
    AcceptableIsComplete(fdt.h, fdt.buf[..], fdt.v, fdt.rsv);
    HeaderAccepted(fdt.h);
    err := OpenInto(fdt, dst, bufsize);
  }

  /** A node answers to its name, and, when `s` has no `@`, to what stands before an `@` in its name. */
  lemma AnswersTo(name: bytes, s: bytes)
    ensures Matches(name, s) <==> name == s || (exists u :: name == s + Ascii("@") + u && Ascii("@")[0] !in s)
  {
    SymbolNames();
    assert Ascii("@") == [AT_SIGN];
    if Matches(name, s) && name != s {
      var u := name[|s| + 1..];
      assert name == s + [AT_SIGN] + u;
    }
    if u :| name == s + Ascii("@") + u && Ascii("@")[0] !in s { assert name[|s|] == AT_SIGN && s == name[..|s|]; }
  }

  /** A reserve map is entries of an address and a size, eight bytes each, none of size zero, and then one of size
      zero. */
  lemma MapIs(m: bytes, rs: seq<Rsv>)
    ensures Reserves(m, rs) <==>
      && 16 * |rs| + 16 <= |m|
      && (forall i :: 0 <= i < |rs| ==> EntryAt(m, rs, i))
      && m[16 * |rs| + 8..16 * |rs| + 16] == [0, 0, 0, 0, 0, 0, 0, 0]
  {
    hide Reserves, EntryAt, BigEndian;
    EightZeros();
    if Reserves(m, rs) {
      ReservesAt(m, rs, |rs|);
      forall i | 0 <= i < |rs| ensures EntryAt(m, rs, i) { EntryThere(m, rs, i); }
    } else if 16 * |rs| + 16 <= |m| && m[16 * |rs| + 8..16 * |rs| + 16] == BigEndian(0, 8) {
      if forall i :: 0 <= i < |rs| ==> EntryAt(m, rs, i) { EntriesMake(m, rs); }
    }
  }

  lemma EntryThere(m: bytes, rs: seq<Rsv>, i: nat)
    requires Reserves(m, rs) && i < |rs| && 16 * |rs| + 16 <= |m|
    ensures EntryAt(m, rs, i)
  {
    hide Reserves, BigEndian;
    ReservesAt(m, rs, i);
    var e := m[16 * i..16 * i + 16];
    var a, b := BigEndian(rs[i].address, 8), BigEndian(rs[i].size, 8);
    assert e == a + b;
    Sub(m, 16 * i, e, 0, 8);
    Sub(m, 16 * i, e, 8, 16);
    assert e[0..8] == a && e[8..16] == b;
  }

  predicate EntryAt(m: bytes, rs: seq<Rsv>, i: nat)
    requires i < |rs| && 16 * |rs| + 16 <= |m|
  {
    && m[16 * i..16 * i + 8] == BigEndian(rs[i].address, 8)
    && m[16 * i + 8..16 * i + 16] == BigEndian(rs[i].size, 8) && rs[i].size != 0
  }

  lemma EightZeros()
    ensures BigEndian(0, 8) == [0, 0, 0, 0, 0, 0, 0, 0]
  {
  }

  lemma {:induction false} EntriesMake(m: bytes, rs: seq<Rsv>)
    requires 16 * |rs| + 16 <= |m| && forall i :: 0 <= i < |rs| ==> EntryAt(m, rs, i)
    requires m[16 * |rs| + 8..16 * |rs| + 16] == BigEndian(0, 8)
    ensures Reserves(m, rs)
    decreases |rs|
  {
    hide BigEndian;
    if rs != [] {
      var r := m[16..];
      assert EntryAt(m, rs, 0);
      SliceJoin(m, 0, 8, 16);
      forall i | 0 <= i < |rs[1..]| ensures EntryAt(r, rs[1..], i) {
        assert EntryAt(m, rs, i + 1);
        Shifted(m, 16 * i, 8);
        Shifted(m, 16 * i + 8, 8);
      }
      Shifted(m, 16 * |rs[1..]| + 8, 8);
      EntriesMake(r, rs[1..]);
    }
  }

  lemma Shifted(m: bytes, o: nat, n: nat)
    requires 16 + o + n <= |m|
    ensures m[16..][o..o + n] == m[16 + o..16 + o + n]
  {
  }

  /** What `fdt_next_tag` returns at an aligned offset, for each tag and each kind of damage. */
  lemma TagIs(s: bytes, start: nat)
    requires |s| < TWO31
    ensures start + 4 > |s| ==> TagAt(s, start) == (9, -8)
    ensures start + 4 <= |s| && Be32(s, start) !in {1, 2, 3, 4, 9} ==> TagAt(s, start) == (9, -11)
    ensures start + 4 <= |s| && Be32(s, start) in {2, 4, 9} ==> TagAt(s, start) == (Be32(s, start), Align4(start + 4))
    ensures start + 4 <= |s| && Be32(s, start) == 1 && NUL !in s[start + 4..] ==> TagAt(s, start) == (9, -11)
    ensures start + 4 <= |s| && Be32(s, start) == 3 && start + 8 > |s| ==> TagAt(s, start) == (9, -11)
    ensures start + 8 <= |s| && Be32(s, start) == 3 && Be32(s, start + 4) < 0xffff_fff4 ==>
      var e := start + 12 + Be32(s, start + 4);
      (e > |s| ==> TagAt(s, start) == (9, -11)) && (e <= |s| ==> TagAt(s, start) == (3, Align4(e)))
  {
    hide Cell, Align4, NulAt;
    if start + 4 <= |s| && NUL !in s[start + 4..] { NoNulFrom(s, start + 4); }
  }

  lemma NoNulFrom(s: bytes, i: nat)
    requires i <= |s| && NUL !in s[i..]
    ensures NulAt(s, i) == |s|
  {
    hide NulAt;
    NulAtFirst(s, i);
  }

  /** A node: its name ends at the first NUL, and the next tag is at the next multiple of four. */
  lemma NodeTagIs(s: bytes, start: nat, name: bytes, rest: bytes)
    requires start + 4 <= |s| < TWO31 && Be32(s, start) == 1 && NUL !in name && s[start + 4..] == name + [NUL] + rest
    ensures TagAt(s, start) == (1, Align4(start + 4 + |name| + 1))
  {
    hide Cell, Align4, NulAt;
    var j := start + 4 + |name|;
    assert forall k :: start + 4 <= k < |s| ==> s[k] == s[start + 4..][k - start - 4];
    NulAtIs(s, start + 4, j);
  }

  /** Which offsets are those of a node, and of a property. */
  lemma OffsetsAre(s: bytes, o: int)
    ensures NodeCheck(s, o) == if o >= 0 && o % 4 == 0 && TagAt(s, o).0 == 1 then TagAt(s, o).1 else -4
    ensures PropCheck(s, o) == if o >= 0 && o % 4 == 0 && TagAt(s, o).0 == 3 then TagAt(s, o).1 else -4
  {
    hide TagAt;
  }
}
