/** Names stay where they are, whatever is added to the strings later. */
module Interning {
  import opened Bytes
  import opened Strings
  import opened FdtRw
  import opened FdtSw

  /** The strings block after some names were looked up or added, in order (`fdt_find_add_string_` of fdt_rw.c). */
  function AddNames(t: bytes, names: seq<bytes>): bytes
    decreases |names|
  {
    if names == [] then t else AddNames(WithString(t, names[0]), names[1..])
  }

  lemma NameReads(t: bytes, s: bytes)
    requires NUL !in s
    ensures HasStr(WithString(t, s), NameOff(t, s)) && StrAt(WithString(t, s), NameOff(t, s)) == s
  {
    hide StrAt, HasStr, Occurs;
    if NameOff(t, s) < |t| {
      OccursIsStrAt(t, NameOff(t, s), s);
    } else {
      OccursAppended(t, s);
      OccursIsStrAt(t + (s + [NUL]), |t|, s);
    }
  }

  lemma {:induction false} NamesKeep(t: bytes, names: seq<bytes>, off: nat)
    requires HasStr(t, off)
    ensures t <= AddNames(t, names) && HasStr(AddNames(t, names), off)
    ensures StrAt(AddNames(t, names), off) == StrAt(t, off)
    decreases |names|
  {
    hide StrAt, HasStr;
    if names != [] {
      StrAtAppend(t, names[0] + [NUL], off);
      NamesKeep(WithString(t, names[0]), names[1..], off);
    }
  }

  /** In a run of additions every name keeps reading back from the offset it was given. */
  lemma {:induction false} NameStable(t: bytes, names: seq<bytes>, k: nat)
    requires k < |names| && forall i :: 0 <= i < |names| ==> NUL !in names[i]
    ensures StrAt(AddNames(t, names), NameOff(AddNames(t, names[..k]), names[k])) == names[k]
    decreases k
  {
    hide StrAt, HasStr, NameOff, WithString;
    if k == 0 {
      assert names[..0] == [];
      NameReads(t, names[0]);
      NamesKeep(WithString(t, names[0]), names[1..], NameOff(t, names[0]));
    } else {
      assert names[..k][0] == names[0] && names[..k][1..] == names[1..][..k - 1] && names[1..][k - 1] == names[k];
      NameStable(WithString(t, names[0]), names[1..], k - 1);
    }
  }

  /** A name that is in the block, also as the end of a longer string, adds no bytes. */
  lemma PresentAddsNothing(t: bytes, off: nat)
    requires HasStr(t, off)
    ensures NewStringSize(t, StrAt(t, off)) == 0 && WithString(t, StrAt(t, off)) == t
  {
    hide StrAt, HasStr, Occurs;
    StrAtOccurs(t, off);
    OccursInside(t, off, StrAt(t, off));
    FindStrLeast(t, StrAt(t, off), 0, off);
  }

  lemma OccursInside(t: bytes, off: nat, s: bytes)
    requires Occurs(t, off, s)
    ensures off < |t|
  {
  }

  /** The same for the sequential writer, whose table grows at its front and is addressed from its end. */
  function AddNamesDown(t: bytes, names: seq<bytes>): bytes
    decreases |names|
  {
    if names == [] then t else AddNamesDown(WithStringDown(t, names[0]), names[1..])
  }

  lemma DownReads(t: bytes, s: bytes)
    requires NUL !in s && |WithStringDown(t, s)| < TWO31
    ensures NameIs(WithStringDown(t, s), DownOff(t, s), s)
  {
    hide NameIs, Occurs;
    if FirstOccurrence(t, s, 0) < |t| {
      NameFound(FirstOccurrence(t, s, 0), t, s);
    } else {
      var u := (s + [NUL]) + t;
      assert Occurs(u, 0, s) by { FrontOccurs(t, s); }
      NameFound(0, u, s);
    }
  }

  lemma FrontOccurs(t: bytes, s: bytes)
    ensures Occurs((s + [NUL]) + t, 0, s)
  {
    assert ((s + [NUL]) + t)[0..|s| + 1] == s + [NUL];
  }

  lemma NameIsGrows(t: bytes, x: bytes, r: int, s: bytes)
    requires NameIs(t, r, s) && |x| + |t| < TWO31
    ensures NameIs(x + t, r, s)
  {
    hide StrAt, HasStr;
    StrAtPrepend(t, x, r + |t|);
    assert U32(r) == r + TWO32;
  }

  lemma {:induction false} DownKeep(t: bytes, names: seq<bytes>, r: int, s: bytes)
    requires NameIs(t, r, s) && |AddNamesDown(t, names)| < TWO31
    ensures |t| <= |AddNamesDown(t, names)| && NameIs(AddNamesDown(t, names), r, s)
    decreases |names|
  {
    hide NameIs;
    if names != [] {
      DownGrows(WithStringDown(t, names[0]), names[1..]);
      if NewStringSize(t, names[0]) > 0 { NameIsGrows(t, names[0] + [NUL], r, s); }
      DownKeep(WithStringDown(t, names[0]), names[1..], r, s);
    } else {
      DownGrows(t, names);
    }
  }

  lemma {:induction false} DownGrows(t: bytes, names: seq<bytes>)
    ensures |t| <= |AddNamesDown(t, names)|
    decreases |names|
  {
    if names != [] { DownGrows(WithStringDown(t, names[0]), names[1..]); }
  }

  /** In a run of additions every negative offset keeps naming the string it was given for. */
  lemma {:induction false} DownStable(t: bytes, names: seq<bytes>, k: nat)
    requires k < |names| && (forall i :: 0 <= i < |names| ==> NUL !in names[i]) && |AddNamesDown(t, names)| < TWO31
    ensures NameIs(AddNamesDown(t, names), DownOff(AddNamesDown(t, names[..k]), names[k]), names[k])
    decreases k
  {
    hide NameIs, DownOff, WithStringDown;
    if k == 0 {
      assert names[..0] == [];
      DownGrows(WithStringDown(t, names[0]), names[1..]);
      DownReads(t, names[0]);
      DownKeep(WithStringDown(t, names[0]), names[1..], DownOff(t, names[0]), names[0]);
    } else {
      assert names[..k][0] == names[0] && names[..k][1..] == names[1..][..k - 1] && names[1..][k - 1] == names[k];
      DownStable(WithStringDown(t, names[0]), names[1..], k - 1);
    }
  }
}
