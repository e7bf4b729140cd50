/** NUL-terminated strings inside a block of bytes, and the strings block. */
module Strings {
  import opened Bytes

  /** The index of the first NUL at or after `i`, or the length when there is none. */
  function NulAt(s: bytes, i: nat): (j: nat)
    requires i <= |s|
    ensures i <= j <= |s|
    decreases |s| - i
  {
    if i == |s| || s[i] == NUL then i else NulAt(s, i + 1)
  }

  /** No NUL in a stretch. */
  predicate Clean(s: bytes, i: nat, j: nat)
    requires i <= j <= |s|
  {
    forall k :: i <= k < j ==> s[k] != NUL
  }

  lemma {:induction false} NulAtFirst(s: bytes, i: nat)
    requires i <= |s|
    ensures NulAt(s, i) < |s| ==> s[NulAt(s, i)] == NUL
    ensures Clean(s, i, NulAt(s, i))
    decreases |s| - i
  {
    if i < |s| && s[i] != NUL { NulAtFirst(s, i + 1); }
  }

  lemma {:induction false} NulAtIs(s: bytes, i: nat, j: nat)
    requires i <= j < |s| && s[j] == NUL && Clean(s, i, j)
    ensures NulAt(s, i) == j
    decreases j - i
  {
    if i < j { NulAtIs(s, i + 1, j); }
  }

  lemma {:induction false} NoNul(t: bytes, i: nat)
    requires NUL !in t && i <= |t|
    ensures NulAt(t, i) == |t|
    decreases |t| - i
  {
    if i < |t| {
      assert t[i] in t;
      NoNul(t, i + 1);
    }
  }

  /** There is a terminated string at `off`. */
  predicate HasStr(t: bytes, off: nat) {
    off < |t| && NulAt(t, off) < |t|
  }

  /** The string at `off`, without its terminator. */
  function StrAt(t: bytes, off: nat): bytes {
    if off < |t| then t[off..NulAt(t, off)] else []
  }

  lemma StrAtClean(t: bytes, off: nat)
    ensures NUL !in StrAt(t, off)
  {
    if off < |t| { NulAtFirst(t, off); }
  }

  /** A string found by its bytes: `s` followed by a NUL at `off`. */
  predicate Occurs(t: bytes, off: nat, s: bytes) {
    off + |s| + 1 <= |t| && t[off..off + |s| + 1] == s + [NUL]
  }

  lemma OccursIsStrAt(t: bytes, off: nat, s: bytes)
    requires NUL !in s && Occurs(t, off, s)
    ensures HasStr(t, off) && StrAt(t, off) == s
  {
    var w := t[off..off + |s| + 1];
    assert w[|s|] == NUL;
    forall k | off <= k < off + |s| ensures t[k] != NUL {
      assert w[k - off] == s[k - off] && s[k - off] in s;
    }
    NulAtIs(t, off, off + |s|);
    SliceCut(t, off, off + |s| + 1, |s|);
    assert (s + [NUL])[..|s|] == s;
  }

  lemma StrAtOccurs(t: bytes, off: nat)
    requires HasStr(t, off)
    ensures Occurs(t, off, StrAt(t, off)) && NUL !in StrAt(t, off)
  {
    NulAtFirst(t, off);
  }

  /** A string keeps its offset when the block grows at its end. */
  lemma StrAtAppend(t: bytes, x: bytes, off: nat)
    requires HasStr(t, off)
    ensures HasStr(t + x, off) && StrAt(t + x, off) == StrAt(t, off)
  {
    NulAtFirst(t, off);
    NulAtIs(t + x, off, NulAt(t, off));
  }

  /** A string moves with its block when the block grows at its front. */
  lemma StrAtPrepend(t: bytes, x: bytes, off: nat)
    requires HasStr(t, off)
    ensures HasStr(x + t, |x| + off) && StrAt(x + t, |x| + off) == StrAt(t, off)
  {
    var j := NulAt(t, off);
    NulAtFirst(t, off);
    forall k | |x| + off <= k < |x| + j ensures (x + t)[k] != NUL {
      assert (x + t)[k] == t[k - |x|];
    }
    NulAtIs(x + t, |x| + off, |x| + j);
    assert (x + t)[|x| + off..|x| + j] == t[off..j];
  }

  /** The least offset from `i` on where `s` and its NUL stand, or the length when there is none. */
  function FirstOccurrence(t: bytes, s: bytes, i: nat): (r: nat)
    requires i <= |t|
    ensures i <= r <= |t|
    ensures r < |t| ==> Occurs(t, r, s)
    decreases |t| - i
  {
    if i == |t| || Occurs(t, i, s) then i else FirstOccurrence(t, s, i + 1)
  }

  /** Nothing is missed. */
  lemma {:induction false} FindStrLeast(t: bytes, s: bytes, i: nat, k: nat)
    requires i <= k <= |t| && Occurs(t, k, s)
    ensures FirstOccurrence(t, s, i) <= k && FirstOccurrence(t, s, i) < |t|
    decreases k - i
  {
    if !Occurs(t, i, s) { FindStrLeast(t, s, i + 1, k); }
  }
}
