/** string.c: the memory and string functions everything else rests on. */
module CString {
  import opened Bytes
  import opened Strings

  /** Memory after `n` bytes moved from `s` to `d`; the regions may overlap. */
  function Moved(m: bytes, d: nat, s: nat, n: nat): (r: bytes)
    requires d + n <= |m| && s + n <= |m|
    ensures |r| == |m|
  {
    m[..d] + m[s..s + n] + m[d + n..]
  }

  /** `memmove`: forwards when the destination is below the source, backwards otherwise. */
  method Memmove(a: array<byte>, dest: nat, src: nat, count: nat)
    requires dest + count <= a.Length && src + count <= a.Length
    modifies a
    ensures a[..] == Moved(old(a[..]), dest, src, count)
  {
    ghost var m := a[..];
    var n := 0;
    if dest <= src {
      while n < count
        invariant n <= count
        invariant forall k :: dest <= k < dest + n ==> a[k] == m[k - dest + src]
        invariant forall k :: 0 <= k < a.Length && !(dest <= k < dest + n) ==> a[k] == m[k]
      {
        a[dest + n] := a[src + n];
        n := n + 1;
      }
    } else {
      n := count;
      while n > 0
        invariant 0 <= n <= count
        invariant forall k :: dest + n <= k < dest + count ==> a[k] == m[k - dest + src]
        invariant forall k :: 0 <= k < a.Length && !(dest + n <= k < dest + count) ==> a[k] == m[k]
      {
        n := n - 1;
        a[dest + n] := a[src + n];
      }
    }
    MovedIs(m, a[..], dest, src, count);
  }

  lemma MovedIs(m: bytes, r: bytes, d: nat, s: nat, n: nat)
    requires d + n <= |m| == |r| && s + n <= |m|
    requires forall k :: d <= k < d + n ==> r[k] == m[k - d + s]
    requires forall k :: 0 <= k < |m| && !(d <= k < d + n) ==> r[k] == m[k]
    ensures r == Moved(m, d, s, n)
  {
    assert r[..d] == m[..d];
    assert r[d + n..] == m[d + n..];
    assert r[d..d + n] == m[s..s + n];
    assert r == r[..d] + r[d..d + n] + r[d + n..];
  }

  /** Memory with `w` written at `d`. */
  function Written(m: bytes, d: nat, w: bytes): (r: bytes)
    requires d + |w| <= |m|
    ensures |r| == |m|
  {
    m[..d] + w + m[d + |w|..]
  }

  lemma WrittenAll(w: bytes, val: bytes)
    requires |w| == |val|
    ensures Written(w, 0, val) == val
  {
  }

  lemma SamePrefix(m: bytes, m': bytes, u: nat, x: nat, y: nat)
    requires x <= y <= u <= |m| && u <= |m'| && m'[..u] == m[..u]
    ensures m'[x..y] == m[x..y]
  {
    assert m'[x..y] == m'[..u][x..y];
    assert m[x..y] == m[..u][x..y];
  }

  lemma WrittenParts(m: bytes, d: nat, w: bytes)
    requires d + |w| <= |m|
    ensures var r := Written(m, d, w);
      |r| == |m| && r[..d] == m[..d] && r[d..d + |w|] == w && r[d + |w|..] == m[d + |w|..]
  {
  }

  lemma MovedParts(m: bytes, d: nat, s: nat, n: nat)
    requires d + n <= |m| && s + n <= |m|
    ensures var r := Moved(m, d, s, n);
      |r| == |m| && r[..d] == m[..d] && r[d..d + n] == m[s..s + n] && r[d + n..] == m[d + n..]
  {
  }

  /** `memcpy` from a value outside the buffer. */
  method Memcpy(a: array<byte>, dest: nat, w: bytes)
    requires dest + |w| <= a.Length
    modifies a
    ensures a[..] == Written(old(a[..]), dest, w)
  {
    ghost var m := a[..];
    var n := 0;
    while n < |w|
      invariant n <= |w|
      invariant forall k :: 0 <= k < n ==> a[dest + k] == w[k]
      invariant forall k :: 0 <= k < a.Length && !(dest <= k < dest + n) ==> a[k] == m[k]
    {
      a[dest + n] := w[n];
      n := n + 1;
    }
    var r := a[..];
    assert r[..dest] == m[..dest] && r[dest..dest + n] == w && r[dest + n..] == m[dest + n..];
    assert r == r[..dest] + r[dest..dest + n] + r[dest + n..];
  }

  /** `memmove` between buffers that are either the same or disjoint. */
  method MemmoveBetween(a: array<byte>, dest: nat, b: array<byte>, src: nat, count: nat)
    requires dest + count <= a.Length && src + count <= b.Length
    modifies a
    ensures a[..] == Written(old(a[..]), dest, old(b[..])[src..src + count])
  {
    if a == b {
      Memmove(a, dest, src, count);
    } else {
      assert b[src..src + count] == b[..][src..src + count];
      Memcpy(a, dest, b[src..src + count]);
    }
  }

  /** `n` copies of a byte. */
  function Fill(c: byte, n: nat): (r: bytes)
    ensures |r| == n && forall k :: 0 <= k < n ==> r[k] == c
  {
    seq(n, _ => c)
  }

  method Memset(a: array<byte>, dest: nat, c: byte, count: nat)
    requires dest + count <= a.Length
    modifies a
    ensures a[..] == Written(old(a[..]), dest, Fill(c, count))
  {
    ghost var m, w := a[..], Fill(c, count);
    var n := 0;
    while n < count
      invariant n <= count
      invariant forall k :: 0 <= k < n ==> a[dest + k] == w[k]
      invariant forall k :: 0 <= k < a.Length && !(dest <= k < dest + n) ==> a[k] == m[k]
    {
      a[dest + n] := c;
      n := n + 1;
    }
    var r := a[..];
    assert r[..dest] == m[..dest] && r[dest..dest + n] == w && r[dest + n..] == m[dest + n..];
    assert r == r[..dest] + r[dest..dest + n] + r[dest + n..];
  }

  /** `memcmp` of a stretch of memory with a value: zero exactly when they are equal, else the sign of the
      first difference. */
  method Memcmp(m: bytes, i: nat, s: bytes) returns (res: int)
    requires i + |s| <= |m|
    ensures res == 0 <==> m[i..i + |s|] == s
    ensures res != 0 ==> exists k :: 0 <= k < |s| && m[i..i + k] == s[..k] && res == m[i + k] as int - s[k] as int
  {
    var n := 0;
    res := 0;
    while n < |s|
      invariant n <= |s| && res == 0 && m[i..i + n] == s[..n]
    {
      res := m[i + n] as int - s[n] as int;
      if res != 0 {
        assert m[i..i + |s|][n] != s[n];
        return;
      }
      assert m[i..i + n + 1] == m[i..i + n] + [m[i + n]] && s[..n + 1] == s[..n] + [s[n]];
      n := n + 1;
    }
    assert s[..n] == s;
  }

  /** `memchr`: the first occurrence of a byte in a stretch of `n` bytes. */
  method Memchr(m: bytes, i: nat, c: byte, n: nat) returns (found: bool, p: nat)
    requires i + n <= |m|
    ensures found <==> c in m[i..i + n]
    ensures found ==> i <= p < i + n && m[p] == c && c !in m[i..p]
  {
    p := i;
    while p < i + n
      invariant i <= p <= i + n && c !in m[i..p]
    {
      if m[p] == c {
        assert m[i..i + n][p - i] == c;
        return true, p;
      }
      assert m[i..p + 1] == m[i..p] + [m[p]];
      p := p + 1;
    }
    return false, p;
  }

  /** What `memchr` for a NUL finds. */
  lemma FirstNul(s: bytes, found: bool, at: nat)
    requires (found <==> NUL in s[0..|s|]) && (found ==> 0 <= at < |s| && s[at] == NUL && NUL !in s[0..at])
    ensures NulAt(s, 0) == (if found then at else |s|) && (found ==> NUL !in s[..at])
  {
    assert s[0..|s|] == s;
    if found {
      assert s[0..at] == s[..at];
      assert forall k :: 0 <= k < at ==> s[k] == s[0..at][k] && s[0..at][k] in s[0..at];
      NulAtIs(s, 0, at);
    } else {
      NoNul(s, 0);
    }
  }

  /** ISO C `strlen` (section 7.24.6.3 of ISO/IEC 9899:2011): the terminator is not counted. */
  method StrlenIso(m: bytes, p: nat) returns (n: nat)
    requires p <= |m| && NulAt(m, p) < |m|
    ensures p + n == NulAt(m, p)
  {
    n := 0;
    while m[p + n] != NUL
      invariant p + n < |m| && NulAt(m, p) == NulAt(m, p + n)
      decreases |m| - n
    {
      n := n + 1;
    }
  }

  /** The repository's `strlen`: the terminator is counted. */
  method Strlen(m: bytes, p: nat) returns (n: nat)
    requires p <= |m| && NulAt(m, p) < |m|
    ensures p + n == NulAt(m, p) + 1
  {
    var c := p;
    while true
      invariant p <= c < |m| && NulAt(m, p) == NulAt(m, c)
      decreases |m| - c
    {
      var b := m[c];
      c := c + 1;
      if b == NUL { break; }
    }
    n := c - p;
  }

  /** `strnlen`: reads one byte past `maxlen` bytes that are not NUL, as the code does. */
  method Strnlen(m: bytes, s: nat, maxlen: nat) returns (len: nat)
    requires s + maxlen < |m|
    ensures len == Min(NulAt(m, s) - s, maxlen)
  {
    len := 0;
    while m[s + len] != NUL && len < maxlen
      invariant len <= maxlen && NulAt(m, s) == NulAt(m, s + len)
      decreases maxlen - len
    {
      len := len + 1;
    }
  }

  /** The least position from `i` on where two stretches of `n` bytes differ or both end. */
  function Common(a: bytes, p: nat, b: bytes, q: nat, n: nat): (r: nat)
    requires p + n <= |a| && q + n <= |b|
    ensures r <= n
    decreases n
  {
    if n == 0 || a[p] != b[q] || a[p] == NUL then 0 else 1 + Common(a, p + 1, b, q + 1, n - 1)
  }

  lemma {:induction false} CommonFull(a: bytes, p: nat, s: bytes)
    requires p + |s| + 1 <= |a| && NUL !in s
    ensures var z := s + [NUL];
      var c := Common(a, p, z, 0, |z|);
      (c < |z| && a[p + c] != z[c]) <==> a[p..p + |z|] != z
  {
    CommonFrom(a, p, s, 0);
    assert a[p..p + |s| + 1] == a[p + 0..p + |s| + 1] && (s + [NUL])[0..] == s + [NUL];
  }

  lemma {:induction false} CommonFrom(a: bytes, p: nat, s: bytes, i: nat)
    requires p + |s| + 1 <= |a| && NUL !in s && i <= |s|
    ensures var z := s + [NUL];
      var c := Common(a, p + i, z, i, |z| - i);
      (c < |z| - i && a[p + i + c] != z[i + c]) <==> a[p + i..p + |z|] != z[i..]
    decreases |s| - i
  {
    var z := s + [NUL];
    var x, y := a[p + i..p + |z|], z[i..];
    assert x[0] == a[p + i] && y[0] == z[i];
    if a[p + i] == z[i] {
      if i < |s| {
        assert z[i] == s[i] && s[i] in s;
        CommonFrom(a, p, s, i + 1);
        assert x == [a[p + i]] + a[p + i + 1..p + |z|];
        assert y == [z[i]] + z[i + 1..];
      } else {
        assert x == [NUL] && y == [NUL];
      }
    }
  }

  /** `strncmp`: stops at the first difference, at a common NUL, or after `len` bytes. */
  method Strncmp(a: bytes, p: nat, b: bytes, q: nat, len: nat) returns (r: int)
    requires p + len <= |a| && q + len <= |b|
    ensures var c := Common(a, p, b, q, len);
      r == if c == len || a[p + c] == b[q + c] then 0 else if a[p + c] < b[q + c] then -1 else 1
  {
    var i := 0;
    while i < len
      invariant i <= len
      invariant Common(a, p, b, q, len) == i + Common(a, p + i, b, q + i, len - i)
    {
      var c1, c2 := a[p + i], b[q + i];
      if c1 != c2 { return if c1 < c2 then -1 else 1; }
      if c1 == NUL { break; }
      i := i + 1;
    }
    return 0;
  }
}
