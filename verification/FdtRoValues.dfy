/** fdt_ro.c: names and values handed out as values. */
module FdtRoValues {
  import opened Bytes
  import opened Strings
  import opened CString
  import opened Trees
  import opened Tokens
  import opened Lexer
  import opened Walk
  import opened Views
  import opened Fdt
  import opened FdtRo
  import opened FdtRoPath

  /** `fdt_getprop_by_offset`: the name and the value of a property. */
  method GetpropByOffset(fdt: Blob, offset: int, ghost l: Loc, ghost q: nat) returns (name: bytes, value: bytes)
    requires fdt.Readable() && fdt.v.PropAt(offset, l, q) && offset < TWO31
    ensures q < |l.node.props| && name == l.node.props[q].name && value == l.node.props[q].value
    ensures NUL !in name && |name| < TWO31 && |value| < TWO31
  {
    hide View.Ok, View.PropAt, Region, Tab, PropCheck, StrAt, HasStr, Cell, Legible, NulAt;
    PropFields(fdt, offset, l, q);
    LegibleParts(fdt.h, fdt.buf[..], fdt.v);
    var len := StructCell(fdt, offset + 4);
    var stroffset := StructCell(fdt, offset + 8);
    value := StructBytes(fdt, offset + 12, len);
    name := GetString(fdt, stroffset);
  }

  /** A stretch of the structure block, as a value. */
  method StructBytes(fdt: Blob, offset: nat, len: nat) returns (w: bytes)
    requires fdt.Readable() && offset + len <= |fdt.v.s| && |fdt.v.s| > 0
    ensures w == fdt.v.s[offset..offset + len]
  {
    hide View.Ok, Region, Tab, Legible;
    InMemory(fdt.h, fdt.buf[..], fdt.v, offset, offset + len);
    w := fdt.buf[..][fdt.h.offStruct + offset..fdt.h.offStruct + offset + len];
  }

  /** `fdt_string`, as a value. */
  method GetString(fdt: Blob, stroffset: nat) returns (s: bytes)
    requires fdt.Readable() && HasStr(fdt.v.tab, stroffset)
    ensures s == StrAt(fdt.v.tab, stroffset) && NUL !in s && |s| < TWO31
  {
    hide View.Ok, Region, Tab, Legible, NulAt;
    LegibleParts(fdt.h, fdt.buf[..], fdt.v);
    StringInMemory(fdt.buf[..], fdt.h.offStrings, fdt.v.tab, stroffset);
    StrAtClean(fdt.v.tab, stroffset);
    StrInside(fdt.v.tab, stroffset);
    var p := fdt.h.offStrings + stroffset;
    var n := StrlenIso(fdt.buf[..], p);
    s := fdt.buf[..][p..p + n];
  }

  lemma LegibleParts(h: Header, m: bytes, v: View)
    requires Legible(h, m, v)
    ensures h.totalsize <= |m| < TWO31 && h.offStrings + |v.tab| <= |m| && v.s == Region(h, m) && |v.s| < TWO31
    ensures m[h.offStrings..h.offStrings + |v.tab|] == v.tab
  {
  }

  lemma StrInside(t: bytes, off: nat)
    ensures |StrAt(t, off)| <= |t|
  {
  }

  /** `fdt_get_name`, as a value. */
  method NameOf(fdt: Blob, nodeoffset: int, ghost l: Loc) returns (name: bytes)
    requires fdt.Readable() && 0 <= nodeoffset < TWO31 && fdt.v.NodeAt(nodeoffset, l) && HeaderError(fdt.h) == 0
    ensures name == l.node.name && NUL !in name && |name| < TWO31
  {
    hide View.Ok, View.NodeAt, NodeCheck, Region, Tab;
    NodeAtCheck(fdt.v, nodeoffset, l);
    NodeName(fdt.v, nodeoffset, l);
    var p, len := GetName(fdt, nodeoffset, l);
    name := fdt.buf[p..p + len];
  }

  /** `fdt_getprop`: the value, or a negative length. */
  method Getprop(fdt: Blob, nodeoffset: int, name: bytes, ghost l: Loc) returns (len: int, value: bytes)
    requires fdt.Readable() && 0 <= nodeoffset < TWO31 && fdt.v.NodeAt(nodeoffset, l)
    ensures var q := FindProp(l.node.props, name, 0);
      if q == |l.node.props| then len == -ERR_NOTFOUND else len == |value| < TWO31 && value == l.node.props[q].value
  {
    hide View.Ok, View.NodeAt, View.PropAt, NodeCheck, Region, Tab, FindProp, Legible;
    ReadableOk(fdt);
    NodeAtCheck(fdt.v, nodeoffset, l);
    value := [];
    var prop: int;
    prop, len := GetPropertyNamelen(fdt, nodeoffset, name, l);
    if prop < 0 { return; }
    PropFields(fdt, prop, l, FindProp(l.node.props, name, 0));
    LegibleParts(fdt.h, fdt.buf[..], fdt.v);
    value := StructBytes(fdt, prop + 12, len);
  }
}
