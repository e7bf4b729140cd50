/** dtbs.c: finding the blob for a board in a concatenation of blobs. */
module Dtbs {
  import opened Bytes
  import opened Strings
  import opened CString
  import opened Views

  /** The string and its NUL stand in a stretch of `size` bytes at `d`, and end before the stretch's last byte. */
  predicate Contains(m: bytes, d: nat, size: nat, s: bytes) {
    exists p: nat :: d <= p && p + |s| + 1 < d + size && Occurs(m, p, s)
  }

  /** In other words: the area is something, the string, a NUL, and at least one more byte. */
  lemma ContainsIs(m: bytes, d: nat, size: nat, s: bytes)
    requires d + size <= |m|
    ensures Contains(m, d, size, s) <==> exists a: bytes, b: bytes :: m[d..d + size] == a + s + [NUL] + b && b != []
  {
    if p: nat :| d <= p && p + |s| + 1 < d + size && Occurs(m, p, s) {
      AroundIt(m, d, size, s, p - d);
      assert m[d..d + size] == m[d..p] + s + [NUL] + m[p + |s| + 1..d + size] && m[p + |s| + 1..d + size] != [];
    }
    if a, b :| m[d..d + size] == a + s + [NUL] + b && b != [] {
      InsideIt(m, d, size, s, a, b);
    }
  }

  lemma AroundIt(m: bytes, d: nat, size: nat, s: bytes, i: nat)
    requires d + size <= |m| && i + |s| + 1 < size && Occurs(m, d + i, s)
    ensures m[d..d + size] == m[d..d + i] + s + [NUL] + m[d + i + |s| + 1..d + size]
  {
    hide Occurs;
    var p, e := d + i, d + i + |s| + 1;
    assert m[p..e] == s + [NUL] by { OccursHere(m, p, s); }
    SliceJoin(m, d, p, e);
    SliceJoin(m, d, e, d + size);
  }

  lemma OccursHere(m: bytes, p: nat, s: bytes)
    requires Occurs(m, p, s)
    ensures p + |s| + 1 <= |m| && m[p..p + |s| + 1] == s + [NUL]
  {
  }

  lemma InsideIt(m: bytes, d: nat, size: nat, s: bytes, a: bytes, b: bytes)
    requires d + size <= |m| && m[d..d + size] == a + s + [NUL] + b && b != []
    ensures d + |a| + |s| + 1 < d + size && Occurs(m, d + |a|, s)
  {
    var w, z := m[d..d + size], s + [NUL];
    assert w == a + (z + b);
    assert w[|a|..|a| + |z|] == z;
    Sub(m, d, w, |a|, |a| + |z|);
  }

  /** `find_str`. The repository's `strlen` counts the NUL, and the loop stops one position early. */
  method FindStr(m: bytes, mem: nat, memsz: nat, str: bytes) returns (r: int)
    requires mem + memsz <= |m| && NUL !in str
    ensures r == if Contains(m, mem, memsz, str) then 1 else 0
  {
    var z := str + [NUL];
    TerminatedLength(str);
    var len := Strlen(z, 0);
    var last := mem + memsz - len;
    var p := mem;
    while p < last
      invariant mem <= p && (p <= last || p == mem)
      invariant forall x: nat :: mem <= x < p ==> !Occurs(m, x, str)
      decreases last - p
    {
      CommonFull(m, p, str);
      assert m[p] == m[p..p + |z|][0];
      if m[p] == z[0] {
        var c := Strncmp(m, p, z, 0, len);
        if c == 0 {
          assert Occurs(m, p, str);
          return 1;
        }
      }
      p := p + 1;
    }
    return 0;
  }

  lemma TerminatedLength(str: bytes)
    requires NUL !in str
    ensures NulAt(str + [NUL], 0) == |str|
  {
    forall k | 0 <= k < |str| ensures (str + [NUL])[k] != NUL { assert (str + [NUL])[k] == str[k]; }
    NulAtIs(str + [NUL], 0, |str|);
  }

  /** From `d` on there are blobs, each as long as it says and each starting at a multiple of four, and then a word
      that is not the magic number. */
  predicate Chain(m: bytes, d: nat)
    decreases |m| - d
  {
    && d + 4 <= |m|
    && (Be32(m, d) == FDT_MAGIC ==>
      && d + 8 <= |m| && 0 < Be32(m, d + 4) && d + Be32(m, d + 4) <= |m|
      && Chain(m, Align4(d + Be32(m, d + 4))))
  }

  /** Where the blobs start. */
  function Starts(m: bytes, d: nat): seq<nat>
    requires Chain(m, d)
    decreases |m| - d
  {
    if Be32(m, d) == FDT_MAGIC then [d] + Starts(m, Align4(d + Be32(m, d + 4))) else []
  }

  /** What `fdt_totalsize` reads at `d`. */
  function SizeAt(m: bytes, d: nat): nat {
    if d + 8 <= |m| then Be32(m, d + 4) else 0
  }

  /** The first blob from `d` on that contains the string. */
  function FirstWith(m: bytes, d: nat, s: bytes): (r: int)
    requires Chain(m, d)
    decreases |m| - d
  {
    if Be32(m, d) != FDT_MAGIC then -1
    else if Contains(m, d, SizeAt(m, d), s) then d
    else FirstWith(m, Align4(d + Be32(m, d + 4)), s)
  }

  /** `find_dtb`: where the first blob with the string is and its size, or nothing (-1) and size 0. */
  method FindDtb(m: bytes, dtbs: nat, compat: bytes) returns (at: int, size: nat)
    requires Chain(m, dtbs) && NUL !in compat
    ensures at == FirstWith(m, dtbs, compat)
    ensures size == if at < 0 then 0 else SizeAt(m, at)
  {
    hide Contains, Cell;
    var d := dtbs;
    while Be32(m, d) == FDT_MAGIC
      invariant Chain(m, d) && FirstWith(m, d, compat) == FirstWith(m, dtbs, compat)
      decreases |m| - d
    {
      size := Be32(m, d + 4);
      var found := FindStr(m, d, size, compat);
      if found == 1 { return d, size; }
      Align4Div(d + size);
      d := (d + size + 3) / 4 * 4;
    }
    return -1, 0;
  }

  /** The blob that is found is the first of the list that contains the string. */
  lemma {:induction false} FirstWithIsFirst(m: bytes, d: nat, s: bytes) returns (k: nat)
    requires Chain(m, d)
    ensures var ls := Starts(m, d);
      && k <= |ls| && FirstWith(m, d, s) == (if k < |ls| then ls[k] else -1)
      && (k < |ls| ==> Contains(m, ls[k], SizeAt(m, ls[k]), s))
      && forall i :: 0 <= i < k ==> !Contains(m, ls[i], SizeAt(m, ls[i]), s)
    decreases |m| - d
  {
    hide Contains, SizeAt, Cell;
    k := 0;
    if Be32(m, d) == FDT_MAGIC && !Contains(m, d, SizeAt(m, d), s) {
      k := FirstWithIsFirst(m, Align4(d + Be32(m, d + 4)), s);
      k := k + 1;
    }
  }

  /** A blob by its first two header words. */
  predicate IsBlob(b: bytes) {
    8 <= |b| < TWO32 && Be32(b, 0) == FDT_MAGIC && Be32(b, 4) == |b|
  }

  /** Blobs one after the other, each padded to a multiple of four. */
  function Laid(bs: seq<bytes>, tail: bytes): bytes {
    if bs == [] then tail else bs[0] + Fill(NUL, Align4(|bs[0]|) - |bs[0]|) + Laid(bs[1..], tail)
  }

  /** Where they start. */
  function Places(o: nat, bs: seq<bytes>): (r: seq<nat>)
    ensures |r| == |bs|
    decreases bs
  {
    if bs == [] then [] else [o] + Places(o + Align4(|bs[0]|), bs[1..])
  }

  predicate StandsAt(m: bytes, o: nat, b: bytes) {
    o + |b| <= |m| && m[o..o + |b|] == b
  }

  lemma LaidStep(a: bytes, bs: seq<bytes>, tail: bytes) returns (a': bytes)
    requires Aligned(|a|) && bs != []
    ensures a + Laid(bs, tail) == a' + Laid(bs[1..], tail) && StandsAt(a + Laid(bs, tail), |a|, bs[0])
    ensures Aligned(|a'|) && |a'| == |a| + Align4(|bs[0]|) == Align4(|a| + |bs[0]|)
  {
    hide Aligned, Align4, Laid;
    var b := bs[0];
    var pad := Fill(NUL, Align4(|b|) - |b|);
    a' := a + b + pad;
    assert Laid(bs, tail) == b + pad + Laid(bs[1..], tail) by { LaidMore(bs, tail); }
    assert a + Laid(bs, tail) == a' + Laid(bs[1..], tail);
    Align4Aligned(|b|);
    AlignedSum(|a|, Align4(|b|));
    AlignPadded(|a|, |b|, |pad|);
  }

  lemma LaidMore(bs: seq<bytes>, tail: bytes)
    requires bs != []
    ensures Laid(bs, tail) == bs[0] + Fill(NUL, Align4(|bs[0]|) - |bs[0]|) + Laid(bs[1..], tail)
  {
  }

  lemma HeaderWords(m: bytes, o: nat, b: bytes)
    requires StandsAt(m, o, b) && IsBlob(b)
    ensures o + 8 <= |m| && Be32(m, o) == FDT_MAGIC && Be32(m, o + 4) == |b|
  {
    hide Cell;
    Sub(m, o, b, 0, 4);
    Sub(m, o, b, 4, 8);
  }

  /** Blobs laid one after the other are a chain that starts at their places. */
  lemma {:induction false} LaidChain(a: bytes, bs: seq<bytes>, tail: bytes)
    requires Aligned(|a|) && |tail| >= 4 && Be32(tail, 0) != FDT_MAGIC && forall k :: 0 <= k < |bs| ==> IsBlob(bs[k])
    ensures var m := a + Laid(bs, tail);
      Chain(m, |a|) && Starts(m, |a|) == Places(|a|, bs) && forall k :: 0 <= k < |bs| ==>
        StandsAt(m, Places(|a|, bs)[k], bs[k])
    decreases |bs|
  {
    hide Cell, Aligned, Align4, StandsAt, IsBlob;
    var m := a + Laid(bs, tail);
    if bs == [] {
      assert m[|a|..|a| + 4] == tail[0..4];
    } else {
      var a' := LaidStep(a, bs, tail);
      hide Laid;
      LaidChain(a', bs[1..], tail);
      HeaderWords(m, |a|, bs[0]);
      StandsInside(m, |a|, bs[0]);
      forall k | 0 <= k < |bs| ensures StandsAt(m, Places(|a|, bs)[k], bs[k]) {
        if k > 0 { assert bs[k] == bs[1..][k - 1]; }
      }
    }
  }

  lemma StandsInside(m: bytes, o: nat, b: bytes)
    requires StandsAt(m, o, b) && IsBlob(b)
    ensures o + |b| <= |m| && |b| >= 8
  {
  }

  lemma ContainsInBlob(m: bytes, d: nat, b: bytes, s: bytes)
    requires StandsAt(m, d, b)
    ensures Contains(m, d, |b|, s) <==> Contains(b, 0, |b|, s)
  {
    if p: nat :| d <= p && p + |s| + 1 < d + |b| && Occurs(m, p, s) {
      Sub(m, d, b, p - d, p - d + |s| + 1);
      assert Occurs(b, p - d, s);
    }
    if p: nat :| p + |s| + 1 < |b| && Occurs(b, p, s) {
      Sub(m, d, b, p, p + |s| + 1);
      assert Occurs(m, d + p, s);
    }
  }

  /** On any concatenation of blobs the search finds the first one that has the string, with its size. */
  lemma FindsFirst(bs: seq<bytes>, tail: bytes, s: bytes) returns (k: nat)
    requires |tail| >= 4 && Be32(tail, 0) != FDT_MAGIC && forall k :: 0 <= k < |bs| ==> IsBlob(bs[k])
    ensures var m := Laid(bs, tail);
      && k <= |bs| && Chain(m, 0) && FirstWith(m, 0, s) == (if k < |bs| then Places(0, bs)[k] else -1)
      && (k < |bs| ==> Contains(bs[k], 0, |bs[k]|, s) && SizeAt(m, Places(0, bs)[k]) == |bs[k]|)
      && forall i :: 0 <= i < k ==> !Contains(bs[i], 0, |bs[i]|, s)
  {
    hide Contains, Cell, Laid, Starts, FirstWith, StandsAt, IsBlob, Chain;
    var m := Laid(bs, tail);
    assert [] + m == m;
    LaidChain([], bs, tail);
    k := FirstWithIsFirst(m, 0, s);
    forall i | 0 <= i < |bs|
      ensures SizeAt(m, Places(0, bs)[i]) == |bs[i]|
      ensures Contains(m, Places(0, bs)[i], |bs[i]|, s) <==> Contains(bs[i], 0, |bs[i]|, s)
    {
      HeaderWords(m, Places(0, bs)[i], bs[i]);
      ContainsInBlob(m, Places(0, bs)[i], bs[i], s);
    }
  }

  /** A string that ends with the last byte of the memory is missed. */
  lemma LastByteMissed(s: bytes)
    requires NUL !in s && s != []
    ensures Occurs(s + [NUL], 0, s) && !Contains(s + [NUL], 0, |s| + 1, s)
  {
    assert (s + [NUL])[0..|s| + 1] == s + [NUL];
  }
}
