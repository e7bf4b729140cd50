/** What resolving the references of an overlay into its base does, told from the bytes of the fixups. */
module Labels {
  import opened Bytes
  import opened Strings
  import opened CString
  import opened Trees
  import opened Walk
  import opened Lexer
  import opened FdtRo
  import opened FdtRoPath
  import opened FdtRoPhandle
  import opened FdtRoStrings
  import opened IndexPaths
  import opened Merge
  import opened References
  import opened Renumber
  import opened Fixups
  import opened Symbols
  import opened Targets

  /** A fixup as it is spelled: path, property and offset, with colons in between. */
  function Spelling(path: bytes, name: bytes, digits: bytes): bytes {
    path + [COLON] + name + [COLON] + digits
  }

  predicate Spellable(path: bytes, name: bytes, digits: bytes) {
    && COLON !in path && COLON !in name && name != []
    && digits != [] && forall i :: 0 <= i < |digits| ==> IsDigit(digits[i])
  }

  lemma {:induction false} ColonAtIs(a: bytes, b: bytes)
    requires COLON !in a
    ensures ColonAt(a + [COLON] + b) == |a|
  {
    var s := a + [COLON] + b;
    if a != [] {
      assert s[1..] == a[1..] + [COLON] + b && s[0] == a[0];
      ColonAtIs(a[1..], b);
    } else {
      assert s[0] == COLON;
    }
  }

  lemma {:induction false} ColonAtFirst(s: bytes)
    ensures COLON !in s[..ColonAt(s)]
  {
    if s != [] && s[0] != COLON {
      ColonAtFirst(s[1..]);
      assert s[..ColonAt(s)] == [s[0]] + s[1..][..ColonAt(s[1..])];
    }
  }

  /** What is spelled so is read so. */
  lemma SpellingParses(path: bytes, name: bytes, digits: bytes)
    requires Spellable(path, name, digits)
    ensures ParseFixup(Spelling(path, name, digits)) == Entry(path, name, Decimal(digits))
  {
    hide ColonAt, Decimal;
    var rest := name + [COLON] + digits;
    var s := Spelling(path, name, digits);
    assert s == path + [COLON] + rest;
    ColonAtIs(path, rest);
    ColonAtIs(name, digits);
    assert s[|path| + 1..] == rest && s[..|path|] == path;
    assert rest[|name| + 1..] == digits && rest[..|name|] == name;
  }

  /** What is read was spelled so. */
  lemma ParsedSpelling(s: bytes) returns (digits: bytes)
    requires ParseFixup(s).Entry?
    ensures var e := ParseFixup(s);
      Spellable(e.path, e.name, digits) && s == Spelling(e.path, e.name, digits) && e.off == Decimal(digits)
  {
    hide ColonAt, Decimal;
    var i := ColonAt(s);
    var rest := s[i + 1..];
    var j := ColonAt(rest);
    digits := rest[j + 1..];
    ColonAtFirst(s);
    ColonAtFirst(rest);
    assert rest == rest[..j] + [COLON] + digits;
    assert s == s[..i] + [COLON] + rest;
  }

  /** The number that digits write, without a bound. */
  function Written10(s: bytes): nat {
    if s == [] then 0 else Written10(s[..|s| - 1]) * 10 + Digit(s[|s| - 1])
  }

  lemma {:induction false} DecimalIs(s: bytes)
    ensures Decimal(s) == if Written10(s) < TWO32 then Written10(s) else TWO32 - 1
    decreases |s|
  {
    if s != [] { DecimalIs(s[..|s| - 1]); }
  }

  /** The digits of a number. */
  function Digits(n: nat): (s: bytes)
    ensures s != [] && forall i :: 0 <= i < |s| ==> IsDigit(s[i])
  {
    (if n < 10 then [] else Digits(n / 10)) + [(48 + n % 10) as byte]
  }

  lemma {:induction false} DigitsWrite(n: nat)
    ensures Written10(Digits(n)) == n
  {
    var s := Digits(n);
    if n >= 10 {
      DigitsWrite(n / 10);
      assert s[..|s| - 1] == Digits(n / 10);
    } else {
      assert s[..|s| - 1] == [];
    }
  }

  /** An offset that is written in decimal digits is read as that number. */
  lemma DigitsRead(n: u32)
    ensures Decimal(Digits(n)) == n
  {
    DecimalIs(Digits(n));
    DigitsWrite(n);
  }

  /** One fixup: the label it stands under, and its three parts. */
  datatype Ref = Ref(symbol: bytes, path: bytes, name: bytes, digits: bytes)

  predicate Spelled(r: Ref) {
    Spellable(r.path, r.name, r.digits) && NUL !in r.path && NUL !in r.name
  }

  function Off(r: Ref): u32 { Decimal(r.digits) }

  function Spellings(rs: seq<Ref>): (ss: seq<bytes>)
    ensures |ss| == |rs|
  {
    seq(|rs|, i requires 0 <= i < |rs| => Spelling(rs[i].path, rs[i].name, rs[i].digits))
  }

  /** The value of a property lists these fixups, each with its NUL. */
  predicate Lists(p: Prop, rs: seq<Ref>) {
    && rs != [] && p.value == Joined(Spellings(rs))
    && forall i :: 0 <= i < |rs| ==> rs[i].symbol == p.name && Spelled(rs[i])
  }

  /** The properties of `__fixups__` list these fixups, property by property. */
  predicate AllList(ps: seq<Prop>, rss: seq<seq<Ref>>) {
    |ps| == |rss| && forall i :: 0 <= i < |ps| ==> Lists(ps[i], rss[i])
  }

  /** All of them, in the order in which they are resolved. */
  function Flat(rss: seq<seq<Ref>>): seq<Ref> {
    if rss == [] then [] else rss[0] + Flat(rss[1..])
  }

  /** The fixups resolved one after the other. */
  function FixRefs(base: Tree, ov: Tree, rs: seq<Ref>): Result<Tree>
    decreases |rs|
  {
    if rs == [] then Good(ov)
    else
      match FixOne(base, ov, rs[0].symbol, rs[0].path, rs[0].name, Off(rs[0]))
      case Bad(e) => Bad(e)
      case Good(u) => FixRefs(base, u, rs[1..])
  }

  lemma {:induction false} FixRefsInTwo(base: Tree, ov: Tree, a: seq<Ref>, b: seq<Ref>)
    ensures FixRefs(base, ov, a + b) ==
      match FixRefs(base, ov, a) case Bad(e) => Bad(e) case Good(u) => FixRefs(base, u, b)
    decreases |a|
  {
    hide FixOne;
    if a == [] {
      assert a + b == b;
    } else {
      assert (a + b)[1..] == a[1..] + b;
      var u := FixOne(base, ov, a[0].symbol, a[0].path, a[0].name, Off(a[0]));
      if u.Good? { FixRefsInTwo(base, u.value, a[1..], b); }
    }
  }

  lemma SpellingClean(r: Ref)
    requires Spelled(r)
    ensures NUL !in Spelling(r.path, r.name, r.digits)
  {
    assert forall i :: 0 <= i < |r.digits| ==> r.digits[i] != NUL;
  }

  /** The first of some joined strings. */
  lemma JoinedFirst(a: bytes, ss: seq<bytes>)
    requires NUL !in a
    ensures var w := Joined([a] + ss);
      NulAt(w, 0) == |a| && |a| < |w| && w[..|a|] == a && w[|a| + 1..] == Joined(ss)
  {
    JoinedMore(a, ss);
    var w := a + [NUL] + Joined(ss);
    assert forall k :: 0 <= k < |a| ==> w[k] == a[k];
    NulAtIs(w, 0, |a|);
  }

  lemma {:induction false} ValueIsRefs(base: Tree, ov: Tree, p: Prop, rs: seq<Ref>)
    requires Lists(p, rs)
    ensures FixValue(base, ov, p.name, p.value) == FixRefs(base, ov, rs)
    decreases |rs|
  {
    hide FixOne, ParseFixup, Decimal, NulAt;
    var r, rest := rs[0], rs[1..];
    var s := Spelling(r.path, r.name, r.digits);
    assert Spellings(rs) == [s] + Spellings(rest);
    SpellingClean(r);
    JoinedFirst(s, Spellings(rest));
    SpellingParses(r.path, r.name, r.digits);
    var u := FixOne(base, ov, r.symbol, r.path, r.name, Off(r));
    if rest == [] {
      assert Spellings(rest) == [];
    } else {
      JoinedSome(Spellings(rest));
      if u.Good? { ValueIsRefs(base, u.value, Prop(p.name, Joined(Spellings(rest))), rest); }
    }
  }

  lemma JoinedSome(ss: seq<bytes>)
    requires ss != []
    ensures Joined(ss) != []
  {
  }

  lemma {:induction false} PropsAreRefs(base: Tree, ov: Tree, ps: seq<Prop>, rss: seq<seq<Ref>>)
    requires AllList(ps, rss)
    ensures FixProps(base, ov, ps) == FixRefs(base, ov, Flat(rss))
    decreases |ps|
  {
    hide FixValue, FixOne, Lists;
    if ps != [] {
      ValueIsRefs(base, ov, ps[0], rss[0]);
      FixRefsInTwo(base, ov, rss[0], Flat(rss[1..]));
      var u := FixRefs(base, ov, rss[0]);
      if u.Good? { PropsAreRefs(base, u.value, ps[1..], rss[1..]); }
    }
  }

  /** What is resolved without an error was spelled so. */
  lemma {:induction false} ResolvedLists(base: Tree, ov: Tree, p: Prop) returns (rs: seq<Ref>)
    requires FixValue(base, ov, p.name, p.value).Good?
    ensures Lists(p, rs)
    decreases |p.value|
  {
    hide FixOne, ParseFixup, FixValue, Lists, Spelled, NulAt;
    var j := NulAt(p.value, 0);
    FixValueStep(base, ov, p.name, p.value);
    var s, rest := p.value[..j], p.value[j + 1..];
    var digits := ParsedSpelling(s);
    var e := ParseFixup(s);
    var r := Ref(p.name, e.path, e.name, digits);
    SpelledParts(r, s);
    var more := [];
    if rest != [] {
      more := ResolvedLists(base, FixOne(base, ov, p.name, e.path, e.name, e.off).value, Prop(p.name, rest));
    }
    rs := [r] + more;
    ListsMore(p, r, s, rest, more);
  }

  /** The first string of a value: a bad overlay when no NUL ends it, or when it is not spelled as fixups are; else it
      is resolved, and then the rest. */
  lemma FixupInTurn(base: Tree, ov: Tree, symbol: bytes, s: bytes, rest: bytes)
    requires NUL !in s
    ensures FixValue(base, ov, symbol, s) == Bad(-16)
    ensures (forall a, b, c :: Spellable(a, b, c) ==> s != Spelling(a, b, c)) ==>
      FixValue(base, ov, symbol, s + [NUL] + rest) == Bad(-16)
    ensures forall a, b, c :: Spellable(a, b, c) && s == Spelling(a, b, c) ==>
      FixValue(base, ov, symbol, s + [NUL] + rest) ==
        match FixOne(base, ov, symbol, a, b, Decimal(c))
        case Bad(e) => Bad(e)
        case Good(u) => if rest == [] then Good(u) else FixValue(base, u, symbol, rest)
  {
    hide NulAt, ParseFixup, FixOne, Decimal, Spellable, Spelling;
    var w := s + [NUL] + rest;
    assert forall k :: 0 <= k < |s| ==> w[k] == s[k];
    NulAtIs(w, 0, |s|);
    NulAtFirst(s, 0);
    assert w[..|s|] == s && w[|s| + 1..] == rest;
    if ParseFixup(s).Entry? { var digits := ParsedSpelling(s); }
    forall a, b, c | Spellable(a, b, c) && s == Spelling(a, b, c)
      ensures ParseFixup(s) == Entry(a, b, Decimal(c))
    {
      SpellingParses(a, b, c);
    }
  }

  /** One string of a value, resolved. */
  lemma FixValueStep(base: Tree, ov: Tree, symbol: bytes, value: bytes)
    requires FixValue(base, ov, symbol, value).Good?
    ensures var j := NulAt(value, 0);
      && j < |value| && NUL !in value[..j] && value == value[..j] + [NUL] + value[j + 1..]
      && var e := ParseFixup(value[..j]);
        e.Entry? && var u := FixOne(base, ov, symbol, e.path, e.name, e.off);
          && u.Good? && (value[j + 1..] != [] ==> FixValue(base, u.value, symbol, value[j + 1..]).Good?)
  {
    hide FixOne, ParseFixup, NulAt;
    NulAtFirst(value, 0);
  }

  lemma ListsMore(p: Prop, r: Ref, s: bytes, rest: bytes, more: seq<Ref>)
    requires p.value == s + [NUL] + rest && r.symbol == p.name && Spelled(r)
    requires s == Spelling(r.path, r.name, r.digits)
    requires if rest == [] then more == [] else Lists(Prop(p.name, rest), more)
    ensures Lists(p, [r] + more)
  {
    hide Spelled, Spelling;
    assert Spellings([r] + more) == [s] + Spellings(more);
    JoinedMore(s, Spellings(more));
    if rest == [] { assert Spellings(more) == [] && Joined([]) == []; }
  }

  lemma SpelledParts(r: Ref, s: bytes)
    requires Spellable(r.path, r.name, r.digits) && s == Spelling(r.path, r.name, r.digits) && NUL !in s
    ensures Spelled(r)
  {
    var n := |r.path|;
    assert forall k :: 0 <= k < n ==> r.path[k] == s[k] && s[k] in s;
    assert forall k :: 0 <= k < |r.name| ==> r.name[k] == s[n + 1 + k] && s[n + 1 + k] in s;
  }

  lemma {:induction false} AllResolvedList(base: Tree, ov: Tree, ps: seq<Prop>) returns (rss: seq<seq<Ref>>)
    requires FixProps(base, ov, ps).Good?
    ensures AllList(ps, rss)
    decreases |ps|
  {
    hide FixValue, FixOne, Lists;
    rss := [];
    if ps != [] {
      var rs := ResolvedLists(base, ov, ps[0]);
      var more := AllResolvedList(base, FixValue(base, ov, ps[0].name, ps[0].value).value, ps[1..]);
      rss := [rs] + more;
    }
  }
}
