/** fdt_ro.c: properties that are lists of strings. */
module FdtRoStrings {
  import opened Bytes
  import opened Strings
  import opened CString
  import opened Trees
  import opened Tokens
  import opened Lexer
  import opened Walk
  import opened Views
  import opened Fdt
  import opened FdtRo

  /** The strings of a value, up to the first one that is not terminated. */
  function Strs(s: bytes): seq<bytes>
    decreases |s|
  {
    var j := NulAt(s, 0);
    if j == |s| then [] else [s[..j]] + Strs(s[j + 1..])
  }

  /** What follows the last terminated string. */
  function Unended(s: bytes): bytes
    decreases |s|
  {
    var j := NulAt(s, 0);
    if j == |s| then s else Unended(s[j + 1..])
  }

  /** Each string with its NUL. */
  function Joined(ss: seq<bytes>): bytes {
    if ss == [] then [] else ss[0] + [NUL] + Joined(ss[1..])
  }

  /** Every value is its strings, and something without a NUL. */
  lemma {:induction false} ValueIs(s: bytes)
    ensures s == Joined(Strs(s)) + Unended(s) && NUL !in Unended(s)
    ensures forall i :: 0 <= i < |Strs(s)| ==> NUL !in Strs(s)[i]
    decreases |s|
  {
    hide NulAt, Strs, Unended, Joined;
    var j := NulAt(s, 0);
    StringsStep(s);
    if j < |s| {
      var a, r := s[..j], s[j + 1..];
      ValueIs(r);
      JoinedMore(a, Strs(r));
      Regroup3(a + [NUL], Joined(Strs(r)), Unended(r));
    } else {
      assert Joined([]) + s == s by { JoinedNone(); }
    }
  }

  lemma JoinedNone()
    ensures Joined([]) == []
  {
  }

  /** The first string of a value and the rest. */
  lemma StringsStep(s: bytes)
    ensures var j := NulAt(s, 0);
      && NUL !in s[..j]
      && if j == |s| then Strs(s) == [] && Unended(s) == s && NUL !in s
         else s == s[..j] + [NUL] + s[j + 1..] && Strs(s) == [s[..j]] + Strs(s[j + 1..])
              && Unended(s) == Unended(s[j + 1..])
  {
    hide NulAt;
    NulAtFirst(s, 0);
    FirstCut(s, NulAt(s, 0));
  }

  lemma FirstCut(s: bytes, j: nat)
    requires j <= |s|
    ensures j == |s| ==> s[..j] == s
    ensures j < |s| && s[j] == NUL ==> s == s[..j] + [NUL] + s[j + 1..]
  {
  }

  lemma JoinedMore(a: bytes, ss: seq<bytes>)
    ensures Joined([a] + ss) == a + [NUL] + Joined(ss)
  {
    assert ([a] + ss)[1..] == ss;
  }

  lemma Regroup3(x: bytes, y: bytes, z: bytes)
    ensures x + (y + z) == (x + y) + z
  {
  }

  /** Writing a list of strings and reading it back. */
  lemma {:induction false} StrsOfJoined(ss: seq<bytes>, t: bytes)
    requires (forall i :: 0 <= i < |ss| ==> NUL !in ss[i]) && NUL !in t
    ensures Strs(Joined(ss) + t) == ss && Unended(Joined(ss) + t) == t
  {
    var s := Joined(ss) + t;
    if ss == [] {
      assert s == t;
      NoNul(t, 0);
    } else {
      var a, r := ss[0], Joined(ss[1..]) + t;
      assert s == a + ([NUL] + r);
      assert s[|a|] == NUL;
      forall k | 0 <= k < |a| ensures s[k] != NUL { assert s[k] == a[k] && a[k] in a; }
      NulAtIs(s, 0, |a|);
      assert s[..|a|] == a && s[|a| + 1..] == r;
      StrsOfJoined(ss[1..], t);
    }
  }

  /** The first index of a string, or the number of strings. */
  function IndexOf(ss: seq<bytes>, key: bytes): (k: nat)
    ensures k <= |ss| && (k < |ss| ==> ss[k] == key) && forall x :: 0 <= x < k ==> ss[x] != key
  {
    if ss == [] || ss[0] == key then 0 else 1 + IndexOf(ss[1..], key)
  }

  lemma IndexMore(a: bytes, ss: seq<bytes>, key: bytes)
    ensures IndexOf([a] + ss, key) == if a == key then 0 else 1 + IndexOf(ss, key)
  {
    assert ([a] + ss)[1..] == ss;
  }

  /** One string of a list: `strnlen` and the test that it is terminated. */
  method NextStr(m: bytes, list: nat, end: nat) returns (ok: bool, length: nat)
    requires list <= end < |m|
    ensures var s := m[list..end]; (ok <==> NulAt(s, 0) < |s|) && length == NulAt(s, 0) + 1
  {
    hide NulAt;
    NulAtSlice(m, list, end, list);
    var n := Strnlen(m, list, end - list);
    length := n + 1;
    ok := list + length <= end;
  }

  lemma {:induction false} NulAtSlice(m: bytes, p: nat, e: nat, i: nat)
    requires p <= i <= e <= |m|
    ensures NulAt(m[p..e], i - p) == Min(NulAt(m, i), e) - p
    decreases e - i
  {
    if i < e && m[i] != NUL { NulAtSlice(m, p, e, i + 1); }
  }

  /** The first string of a list, and the rest. */
  lemma FirstAndRest(m: bytes, list: nat, end: nat)
    requires list <= end <= |m|
    ensures var s := m[list..end]; var j := NulAt(s, 0);
      if j == |s| then Strs(s) == [] && Unended(s) == s
      else (m[list..list + j + 1] == m[list..list + j] + [NUL]
            && Strs(s) == [m[list..list + j]] + Strs(m[list + j + 1..end])
              && Unended(s) == Unended(m[list + j + 1..end]))
  {
    hide NulAt;
    var s := m[list..end];
    var j := NulAt(s, 0);
    assert j < |s| ==> s[j] == NUL by { NulAtFirst(s, 0); }
    if j < |s| {
      assert s[j + 1..] == m[list + j + 1..end] && s[..j] == m[list..list + j] && m[list + j] == NUL;
    }
  }

  lemma NoStrs()
    ensures Strs([]) == [] && Unended([]) == []
  {
  }

  /** `fdt_getprop`, for lists: the value, with at least one more byte of memory after it. */
  method GetList(fdt: Blob, nodeoffset: int, property: bytes, ghost l: Loc) returns (list: int, length: int)
    requires fdt.Readable() && nodeoffset < TWO31 && fdt.v.Handle(nodeoffset, l)
    ensures NodeCheck(fdt.v.s, nodeoffset) < 0 ==> list < 0 && length == -ERR_BADOFFSET
    ensures NodeCheck(fdt.v.s, nodeoffset) >= 0 ==>
      var q := FindProp(l.node.props, property, 0);
      if q == |l.node.props| then list < 0 && length == -ERR_NOTFOUND
      else (0 <= list && 0 <= length && list + length < fdt.buf.Length
            && fdt.buf[..][list..list + length] == l.node.props[q].value)
  {
    hide View.Ok, View.NodeAt, View.PropAt, NodeCheck, Region, Tab, FindProp;
    var prop: int;
    prop, length := GetPropertyNamelen(fdt, nodeoffset, property, l);
    if prop < 0 { return prop, length; }
    PropFields(fdt, prop, l, FindProp(l.node.props, property, 0));
    ValueInside(fdt.v, prop, l, FindProp(l.node.props, property, 0));
    list := fdt.h.offStruct + prop + 12;
    InMemory(fdt.h, fdt.buf[..], fdt.v, prop + 12, prop + 12 + length);
    InMemory(fdt.h, fdt.buf[..], fdt.v, prop + 12 + length, prop + 16 + length);
  }

  /** Something follows the value of a property. */
  lemma ValueInside(v: View, prop: int, l: Loc, q: nat)
    requires v.Ok() && v.PropAt(prop, l, q)
    ensures q < |l.node.props| && 0 <= prop && prop + 16 + |l.node.props[q].value| <= |v.s|
  {
    hide Ser, Off, TagAt, Flatten, Named, Wf, Abs, Whole, TokBytes, InsideFrom;
    var k: nat :| v.Holds(k, l, q) && prop == Off(v.toks, k);
    HoldsRest(v, k, l, q);
    BytesAt(v.s, v.toks, k);
    TokenCheck(v, k + 1);
    OffMono(v.toks, k + 1, k + 2);
    PropSize(v.toks[k]);
  }

  lemma PropSize(t: Token)
    requires t.TProp?
    ensures |TokBytes(t)| >= 12 + |t.value|
  {
  }

  /** `fdt_stringlist_count`. */
  method StringlistCount(fdt: Blob, nodeoffset: int, property: bytes, ghost l: Loc) returns (r: int)
    requires fdt.Readable() && nodeoffset < TWO31 && fdt.v.Handle(nodeoffset, l)
    ensures NodeCheck(fdt.v.s, nodeoffset) < 0 ==> r == -ERR_BADOFFSET
    ensures NodeCheck(fdt.v.s, nodeoffset) >= 0 ==>
      var q := FindProp(l.node.props, property, 0);
      if q == |l.node.props| then r == -ERR_NOTFOUND
      else r == if Unended(l.node.props[q].value) != [] then -ERR_BADVALUE else |Strs(l.node.props[q].value)|
  {
    hide View.Ok, View.NodeAt, NodeCheck, Region, Tab, FindProp, NulAt;
    var list, length := GetList(fdt, nodeoffset, property, l);
    if list < 0 { return length; }
    r := CountFrom(fdt.buf[..], list, list + length);
  }

  method CountFrom(m: bytes, list0: nat, end: nat) returns (count: int)
    requires list0 <= end < |m|
    ensures var s := m[list0..end]; count == if Unended(s) != [] then -ERR_BADVALUE else |Strs(s)|
  {
    hide NulAt, Strs, Unended;
    count := 0;
    var list := list0;
    while list < end
      invariant list0 <= list <= end && count >= 0
      invariant Unended(m[list0..end]) == Unended(m[list..end])
      invariant |Strs(m[list0..end])| == count + |Strs(m[list..end])|
    {
      var ok, length := NextStr(m, list, end);
      FirstAndRest(m, list, end);
      if !ok { return -ERR_BADVALUE; }
      list := list + length;
      count := count + 1;
    }
    assert m[list..end] == [];
    NoStrs();
  }

  /** What a search for a string finds: its least index, or the error. */
  function Searched(value: bytes, key: bytes): int {
    var i := IndexOf(Strs(value), key);
    if i < |Strs(value)| then i else if Unended(value) != [] then -ERR_BADVALUE else -ERR_NOTFOUND
  }

  /** `fdt_stringlist_search`: the least index of the string. */
  method StringlistSearch(fdt: Blob, nodeoffset: int, property: bytes, key: bytes, ghost l: Loc) returns (r: int)
    requires fdt.Readable() && nodeoffset < TWO31 && fdt.v.Handle(nodeoffset, l) && NUL !in key
    ensures NodeCheck(fdt.v.s, nodeoffset) < 0 ==> r == -ERR_BADOFFSET
    ensures NodeCheck(fdt.v.s, nodeoffset) >= 0 ==>
      var q := FindProp(l.node.props, property, 0);
      if q == |l.node.props| then r == -ERR_NOTFOUND
      else r == Searched(l.node.props[q].value, key)
  {
    hide View.Ok, View.NodeAt, NodeCheck, Region, Tab, FindProp, NulAt, Searched;
    var list, length := GetList(fdt, nodeoffset, property, l);
    if list < 0 { return length; }
    r := SearchFrom(fdt.buf[..], list, list + length, key);
  }

  method SearchFrom(m: bytes, list0: nat, end: nat, key: bytes) returns (r: int)
    requires list0 <= end < |m| && NUL !in key
    ensures r == Searched(m[list0..end], key)
  {
    hide NulAt, Strs, Unended, IndexOf;
    var list, idx := list0, 0;
    ghost var s := m[list0..end];
    while list < end
      invariant list0 <= list <= end && 0 <= idx && Unended(s) == Unended(m[list..end])
      invariant |Strs(s)| == idx + |Strs(m[list..end])|
      invariant IndexOf(Strs(s), key) == idx + IndexOf(Strs(m[list..end]), key)
      decreases end - list
    {
      var ok, length := NextStr(m, list, end);
      FirstAndRest(m, list, end);
      if !ok { return -ERR_BADVALUE; }
      ghost var a := m[list..list + length - 1];
      IndexMore(a, Strs(m[list + length..end]), key);
      SameEnds(a, NUL, key, NUL);
      if length == |key| + 1 {
        var res := Memcmp(m, list, key + [NUL]);
        if res == 0 { return idx; }
      }
      list := list + length;
      idx := idx + 1;
    }
    assert m[list..end] == [];
    NoStrs();
    return -ERR_NOTFOUND;
  }

  /** `fdt_stringlist_get`: where string `idx` is, and its length. */
  method StringlistGet(fdt: Blob, nodeoffset: int, property: bytes, idx: int, ghost l: Loc) returns (p: int, len: int)
    requires fdt.Readable() && nodeoffset < TWO31 && fdt.v.Handle(nodeoffset, l)
    ensures NodeCheck(fdt.v.s, nodeoffset) < 0 ==> p < 0 && len == -ERR_BADOFFSET
    ensures NodeCheck(fdt.v.s, nodeoffset) >= 0 ==>
      var q := FindProp(l.node.props, property, 0);
      if q == |l.node.props| then p < 0 && len == -ERR_NOTFOUND
      else
        var val := l.node.props[q].value;
        if 0 <= idx < |Strs(val)| then
          len == |Strs(val)[idx]| && 0 <= p && p + len < fdt.buf.Length
            && fdt.buf[..][p..p + len + 1] == Strs(val)[idx] + [NUL]
        else p < 0 && len == if Unended(val) != [] then -ERR_BADVALUE else -ERR_NOTFOUND
  {
    hide View.Ok, View.NodeAt, NodeCheck, Region, Tab, FindProp, NulAt, Strs, Unended;
    var list, length := GetList(fdt, nodeoffset, property, l);
    if list < 0 { return list, length; }
    p, len := GetFrom(fdt.buf[..], list, list + length, idx);
  }

  method GetFrom(m: bytes, list0: nat, end: nat, idx0: int) returns (p: int, len: int)
    requires list0 <= end < |m|
    ensures var s := m[list0..end];
      if 0 <= idx0 < |Strs(s)|
        then len == |Strs(s)[idx0]| && 0 <= p && p + len < |m| && m[p..p + len + 1] == Strs(s)[idx0] + [NUL]
      else p < 0 && len == if Unended(s) != [] then -ERR_BADVALUE else -ERR_NOTFOUND
  {
    hide NulAt, Strs, Unended;
    var list, idx := list0, idx0;
    ghost var s := m[list0..end];
    while list < end
      invariant list0 <= list <= end && Unended(s) == Unended(m[list..end])
      invariant (idx0 < 0 <==> idx < 0) && |Strs(s)| - idx0 == |Strs(m[list..end])| - idx
      invariant 0 <= idx < |Strs(m[list..end])| ==> Strs(m[list..end])[idx] == Strs(s)[idx0]
      decreases end - list
    {
      var ok, length := NextStr(m, list, end);
      FirstAndRest(m, list, end);
      if !ok { return -1, -ERR_BADVALUE; }
      if idx == 0 { return list, length - 1; }
      list := list + length;
      idx := idx - 1;
    }
    assert m[list..end] == [];
    NoStrs();
    return -1, -ERR_NOTFOUND;
  }

  /** Whether a value that is followed by the byte `next` contains a string. */
  predicate Contained(value: bytes, key: bytes, next: byte) {
    key in Strs(value) || (Unended(value) == key && next == NUL)
  }

  /** `fdt_stringlist_contains`, on any stretch of memory with a byte after it: it finds the strings of the list, and
      also an unterminated end of the list when the next byte of memory happens to be a NUL. */
  method StringlistContains(m: bytes, strlist0: nat, listlen0: nat, str: bytes) returns (r: int)
    requires strlist0 + listlen0 < |m| && NUL !in str
    ensures r == if Contained(m[strlist0..strlist0 + listlen0], str, m[strlist0 + listlen0]) then 1 else 0
  {
    hide NulAt, Strs, Unended, Contained;
    var strlist, listlen, end := strlist0, listlen0, strlist0 + listlen0;
    while listlen >= |str|
      invariant strlist0 <= strlist <= end && listlen == end - strlist
      invariant Contained(m[strlist0..end], str, m[end]) <==> Contained(m[strlist..end], str, m[end])
      decreases listlen
    {
      var res := Memcmp(m, strlist, str + [NUL]);
      FirstContained(m, strlist, end, str);
      if res == 0 { return 1; }
      var found, p := Memchr(m, strlist, NUL, listlen);
      NulFound(m, strlist, end, found, p);
      if !found { return 0; }
      listlen := listlen - (p - strlist + 1);
      strlist := p + 1;
    }
    TooShort(m[strlist..end], str);
    NotContained(m[strlist..end], str, m[end]);
    return 0;
  }

  lemma NotContained(s: bytes, str: bytes, next: byte)
    requires str !in Strs(s) && Unended(s) != str
    ensures !Contained(s, str, next)
  {
    hide Strs, Unended;
  }

  /** One step of the search: the string is here, or it can only be behind the next NUL. */
  lemma FirstContained(m: bytes, p: nat, end: nat, str: bytes)
    requires p <= end < |m| && end - p >= |str| && NUL !in str
    ensures m[p..p + |str| + 1] == str + [NUL] ==> Contained(m[p..end], str, m[end])
    ensures m[p..p + |str| + 1] != str + [NUL] ==>
      var j := NulAt(m[p..end], 0);
      Contained(m[p..end], str, m[end]) <==> j < end - p && Contained(m[p + j + 1..end], str, m[end])
  {
    hide NulAt, Strs, Unended;
    FirstString(m, p, end, str);
    FirstAndRest(m, p, end);
    SliceCut(m, p, end, NulAt(m[p..end], 0));
  }

  /** A match at the start of a list is its first string, or its unterminated end. */
  lemma FirstString(m: bytes, p: nat, end: nat, str: bytes)
    requires p <= end < |m| && end - p >= |str| && NUL !in str
    ensures var s := m[p..end];
      m[p..p + |str| + 1] == str + [NUL] <==>
        (NulAt(s, 0) < |s| && s[..NulAt(s, 0)] == str) || (NulAt(s, 0) == |s| && s == str && m[end] == NUL)
  {
    var s, z := m[p..end], m[p..p + |str| + 1];
    if |str| < |s| {
      assert s[..|str| + 1] == z == s[..|str|] + [s[|str|]];
      if z == str + [NUL] { OccursIsStrAt(s, 0, str); }
      NulAtFirst(s, 0);
    } else {
      assert z == s + [m[end]];
      if s == str { NoNul(s, 0); }
      assert z == str + [NUL] <==> s == str && m[end] == NUL by { SameEnds(s, m[end], str, NUL); }
    }
  }

  lemma SameEnds(a: bytes, x: byte, b: bytes, y: byte)
    ensures a + [x] == b + [y] <==> a == b && x == y
  {
    if a + [x] == b + [y] {
      assert a == (a + [x])[..|a|] && b == (b + [y])[..|b|];
      assert x == (a + [x])[|a|] && y == (b + [y])[|b|];
    }
  }

  lemma NulFound(m: bytes, p: nat, end: nat, found: bool, x: nat)
    requires p <= end <= |m| && (found <==> NUL in m[p..end])
    requires (found ==> p <= x < end && m[x] == NUL && NUL !in m[p..x])
    ensures var s := m[p..end]; (found <==> NulAt(s, 0) < |s|) && (found ==> NulAt(s, 0) == x - p)
  {
    var s := m[p..end];
    if found {
      assert forall k :: 0 <= k < x - p ==> s[k] == m[p..x][k] && m[p..x][k] in m[p..x];
      NulAtIs(s, 0, x - p);
    } else {
      NoNul(s, 0);
    }
  }

  /** A string longer than the list is not in it. */
  lemma {:induction false} TooShort(s: bytes, str: bytes)
    requires |s| < |str|
    ensures str !in Strs(s) && Unended(s) != str
    decreases |s|
  {
    if NulAt(s, 0) < |s| { TooShort(s[NulAt(s, 0) + 1..], str); }
  }

  /** A string is contained exactly when searching finds it, unless it is no string of the list but the unterminated
      end of it, and a NUL follows. For a list whose strings are all terminated only the empty key can be such an end.
      */
  lemma ListsAgree(value: bytes, key: bytes, next: byte)
    ensures (Contained(value, key, next) <==> Searched(value, key) >= 0) <==>
      key in Strs(value) || Unended(value) != key || next != NUL
    ensures Unended(value) == [] && key != [] ==> (Contained(value, key, next) <==> Searched(value, key) >= 0)
  {
    hide Strs, Unended;
    IndexIn(Strs(value), key);
  }

  lemma IndexIn(ss: seq<bytes>, key: bytes)
    ensures IndexOf(ss, key) < |ss| <==> key in ss
  {
    hide IndexOf;
    if key in ss {
      var k :| 0 <= k < |ss| && ss[k] == key;
    }
  }

  /** The empty key in an empty value, with a NUL behind it: contained, but not found. */
  lemma EmptyKeyDiffers()
    ensures Contained([], [], NUL) && Searched([], []) == -ERR_NOTFOUND
  {
    NoStrs();
  }
}
