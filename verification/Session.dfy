/** A whole edit session: open into a buffer, edit, pack. */
module Session {
  import opened Bytes
  import opened Strings
  import opened Trees
  import opened Tokens
  import opened Lexer
  import opened Walk
  import opened Views
  import opened Edits
  import opened Preorder
  import opened Fdt
  import opened FdtRo
  import opened FdtRoPath
  import opened FdtRoTree
  import opened FdtRw
  import opened FdtRwNodes
  import opened FdtRwBlocks
  import opened FdtOpen
  import opened Levels

  /** The calls of a session; nodes are named by absolute paths. */
  datatype Edit =
    | Set(path: bytes, name: bytes, value: bytes)
    | Append(path: bytes, name: bytes, value: bytes)
    | Delete(path: bytes, name: bytes)
    | Add(path: bytes, name: bytes)
    | Remove(path: bytes)
    | Reserve(address: u64, size: u64)
    | Unreserve(n: nat)

  /** What a blob stands for. */
  datatype Model = Model(tree: Tree, rsv: seq<Rsv>)
  datatype Outcome = Now(m: Model) | Refused

  /** What an edit means; `Refused` when there is nothing to edit, or something is there already. */
  function Apply(m: Model, e: Edit): Outcome {
    match e
    case Reserve(address, size) => Now(m.(rsv := Appended(m.rsv, Rsv(address, size))))
    case Unreserve(n) => if n < |m.rsv| then Now(m.(rsv := m.rsv[..n] + m.rsv[n + 1..])) else Refused
    case _ =>
      match Resolve(Loc(Top, m.tree), e.path)
      case Missing => Refused
      case To(l) =>
        match ApplyAt(l, e)
        case Missing => Refused
        case To(l') => Now(m.(tree := Whole(l')))
  }

  /** The node at `l` after an edit. */
  function ApplyAt(l: Loc, e: Edit): Resolved {
    match e
    case Set(_, name, value) => To(WithProps(l, SetAt(l.node.props, name, value)))
    case Append(_, name, value) => To(WithProps(l, SetAt(l.node.props, name, Extended(l.node.props, name, value))))
    case Delete(_, name) =>
      var q := FindProp(l.node.props, name, 0);
      if q < |l.node.props| then To(WithProps(l, Removed(l.node.props, q))) else Missing
    case Add(_, name) =>
      if FindKid(l.node.kids, name, 0) < |l.node.kids| then Missing
      else To(WithKids(l, [Node(name, [], [])] + l.node.kids))
    case Remove(_) => if l.ctx.In? then To(Without(l)) else Missing
    case _ => Missing
  }

  /** There is room for the edit in a blob of that level. */
  predicate RoomFor(f: Level, m: Model, e: Edit) {
    match e
    case Reserve(_, _) => f.used + 16 <= f.total
    case Unreserve(_) => true
    case _ => match Resolve(Loc(Top, m.tree), e.path) case Missing => true case To(l) => RoomAt(f, l, e)
  }

  predicate RoomAt(f: Level, l: Loc, e: Edit) {
    match e
    case Set(_, name, value) => SetFill(f, l.node.props, name, |value|).Fits?
    case Append(_, name, value) => SetFill(f, l.node.props, name, |Extended(l.node.props, name, value)|).Fits?
    case Add(_, name) => NodeFill(f, name).Fits?
    case _ => true
  }

  /** As many bytes as an edit can need. */
  function EditBulk(e: Edit): nat {
    match e
    case Set(_, name, value) => |name| + 13 + Align4(|value|)
    case Append(_, name, value) => |name| + 13 + Align4(|value|)
    case Delete(_, _) => 0
    case Add(_, name) => 8 + Align4(|name| + 1)
    case Remove(_) => 0
    case Reserve(_, _) => 16
    case Unreserve(_) => 0
  }

  function TotalBulk(es: seq<Edit>): nat {
    if es == [] then 0 else EditBulk(es[0]) + TotalBulk(es[1..])
  }

  /** An edit that returned `err`: one that failed is skipped. */
  function After(m: Model, e: Edit, err: int): Model {
    if err == 0 && Apply(m, e).Now? then Apply(m, e).m else m
  }

  function AfterAll(m: Model, es: seq<Edit>, errs: seq<int>): Model
    requires |es| == |errs|
    decreases |es|
  {
    if es == [] then m else AfterAll(After(m, es[0], errs[0]), es[1..], errs[1..])
  }

  /** Error codes that edits may return: 0 only for an edit that can be done, an error only for one that is refused or
      that does not fit. */
  predicate Told(m: Model, es: seq<Edit>, errs: seq<int>)
    decreases |es|
  {
    |es| == |errs| &&
    (es == [] ||
      (&& (errs[0] == 0 ==> Apply(m, es[0]).Now?)
       && (errs[0] != 0 ==> errs[0] == -ERR_NOSPACE || Apply(m, es[0]) == Refused)
       && Told(After(m, es[0], errs[0]), es[1..], errs[1..])))
  }

  /** One more edit. */
  lemma {:induction false} ToldMore(m: Model, es: seq<Edit>, errs: seq<int>, e: Edit, err: int)
    requires Told(m, es, errs)
    requires var m' := AfterAll(m, es, errs);
      (err == 0 ==> Apply(m', e).Now?) && (err != 0 ==> err == -ERR_NOSPACE || Apply(m', e) == Refused)
    ensures Told(m, es + [e], errs + [err])
    ensures AfterAll(m, es + [e], errs + [err]) == After(AfterAll(m, es, errs), e, err)
    decreases |es|
  {
    hide Apply;
    if es == [] {
      assert es + [e] == [e] && errs + [err] == [err] && [e][1..] == [] && [err][1..] == [];
    } else {
      assert (es + [e])[1..] == es[1..] + [e] && (errs + [err])[1..] == errs[1..] + [err];
      ToldMore(After(m, es[0], errs[0]), es[1..], errs[1..], e, err);
    }
  }

  /** All edits, those that are refused left out. */
  function AllDone(m: Model, es: seq<Edit>): Model
    decreases |es|
  {
    if es == [] then m else AllDone(if Apply(m, es[0]).Now? then Apply(m, es[0]).m else m, es[1..])
  }

  /** If none fails for lack of room, that is what they come to. */
  lemma {:induction false} ToldAllDone(m: Model, es: seq<Edit>, errs: seq<int>)
    requires Told(m, es, errs) && forall i :: 0 <= i < |errs| ==> errs[i] != -ERR_NOSPACE
    ensures AfterAll(m, es, errs) == AllDone(m, es)
    decreases |es|
  {
    hide Apply;
    if es != [] {
      assert errs[0] in errs && forall i :: 0 <= i < |errs[1..]| ==> errs[1..][i] == errs[i + 1];
      ToldAllDone(After(m, es[0], errs[0]), es[1..], errs[1..]);
    }
  }

  lemma {:induction false} BulkMore(es: seq<Edit>, e: Edit)
    ensures TotalBulk(es + [e]) == TotalBulk(es) + EditBulk(e)
    decreases |es|
  {
    hide EditBulk;
    if es == [] {
      assert [] + [e] == [e] && [e][1..] == [];
    } else {
      assert (es + [e])[1..] == es[1..] + [e];
      BulkMore(es[1..], e);
    }
  }

  lemma {:induction false} BulkPart(es: seq<Edit>, i: nat)
    requires i <= |es|
    ensures TotalBulk(es[..i]) <= TotalBulk(es)
    decreases |es| - i
  {
    hide EditBulk, TotalBulk;
    if i < |es| {
      assert es[..i + 1] == es[..i] + [es[i]];
      BulkMore(es[..i], es[i]);
      BulkPart(es, i + 1);
    } else {
      assert es[..i] == es;
    }
  }

  lemma {:induction false} AlignSums(a: nat, b: nat)
    ensures Align4(a + b) <= Align4(a) + Align4(b)
  {
    hide Align4;
    Align4Div(a);
    Align4Div(b);
    Align4Div(a + b);
  }

  /** An edit changes the level by no more than it can need. */
  lemma SetBulk(f: Level, ps: seq<Prop>, name: bytes, len: nat, n: nat)
    requires var q := FindProp(ps, name, 0); len == if q < |ps| then |ps[q].value| + n else n
    ensures SetFill(f, ps, name, len).l.used <= f.used + |name| + 13 + Align4(n)
    ensures f.used + |name| + 13 + Align4(n) <= f.total ==> SetFill(f, ps, name, len).Fits?
  {
    hide FindProp, Align4, NewStringSize;
    NewStringAtMost(f.tab, name);
    var q := FindProp(ps, name, 0);
    if q < |ps| { AlignSums(|ps[q].value|, n); }
  }

  lemma SetBulkNew(f: Level, ps: seq<Prop>, name: bytes, n: nat)
    ensures SetFill(f, ps, name, n).l.used <= f.used + |name| + 13 + Align4(n)
    ensures f.used + |name| + 13 + Align4(n) <= f.total ==> SetFill(f, ps, name, n).Fits?
  {
    hide FindProp, Align4, NewStringSize;
    NewStringAtMost(f.tab, name);
  }

  lemma BulkSuffices(f: Level, m: Model, e: Edit)
    requires f.used + EditBulk(e) <= f.total
    ensures RoomFor(f, m, e)
  {
    hide SetFill, Resolve, Align4, FindProp;
    if !e.Reserve? && !e.Unreserve? && Resolve(Loc(Top, m.tree), e.path).To? {
      var ps := Resolve(Loc(Top, m.tree), e.path).l.node.props;
      match e
      case Set(_, name, value) => SetBulkNew(f, ps, name, |value|);
      case Append(_, name, value) => SetBulk(f, ps, name, |Extended(ps, name, value)|, |value|);
      case _ =>
    }
  }

  /** An absolute path. */
  predicate Absolute(path: bytes) {
    path != [] && path[0] == SLASH && NUL !in path && |path| < TWO31
  }

  /** Arguments the library can take, for a blob of at most `size` bytes; the root is not removed. */
  predicate Sensible(e: Edit, size: nat) {
    match e
    case Set(path, name, value) => Absolute(path) && NUL !in name && |value| + size < TWO31
    case Append(path, name, value) => Absolute(path) && NUL !in name && |value| + size < TWO31
    case Delete(path, name) => Absolute(path)
    case Add(path, name) => Absolute(path) && NUL !in name && |name| < TWO31
    case Remove(path) => Absolute(path) && exists k :: 0 <= k < |path| && path[k] != SLASH
    case Reserve(_, _) => true
    case Unreserve(_) => true
  }

  ghost function ModelOf(fdt: Blob): Model
    reads fdt
  {
    Model(fdt.v.tree, fdt.rsv)
  }

  lemma ValidFacts(fdt: Blob)
    requires fdt.Valid()
    ensures fdt.Readable() && HeaderError(fdt.h) == 0 && RwError(fdt.h) == 0 && fdt.v.Ok()
    ensures |fdt.v.s| <= fdt.h.totalsize
  {
    hide Ser, Reserves, View.Ok;
    EditableDowngraded(fdt.h, fdt.buf[..], fdt.v, fdt.rsv);
  }

  lemma {:induction false} ResolveDeeper(l: Loc, path: bytes, k: nat)
    requires k < |path| && path[k] != SLASH && Resolve(l, path).To?
    ensures Resolve(l, path).l.ctx.In?
    decreases |path|
  {
    if path[0] == SLASH {
      assert path[1..][k - 1] == path[k];
      ResolveDeeper(l, path[1..], k - 1);
    } else {
      var i := FindKid(l.node.kids, path[..SlashAt(path)], 0);
      ResolveDepth(Child(l, i), path[SlashAt(path)..]);
    }
  }

  lemma {:induction false} ResolveDepth(l: Loc, path: bytes)
    requires Resolve(l, path).To?
    ensures Depth(Resolve(l, path).l.ctx) >= Depth(l.ctx)
    decreases |path|
  {
    if path != [] {
      if path[0] == SLASH {
        ResolveDepth(l, path[1..]);
      } else {
        var i := FindKid(l.node.kids, path[..SlashAt(path)], 0);
        ResolveDepth(Child(l, i), path[SlashAt(path)..]);
      }
    }
  }

  /** An edit of one node. A refused edit changes nothing; one that does not fit in the buffer changes no more than
      the strings block. */
  method EditNode(fdt: Blob, e: Edit, off: int, ghost l: Loc) returns (err: int)
    requires fdt.Valid() && Sensible(e, fdt.h.totalsize) && !e.Reserve? && !e.Unreserve?
    requires 0 <= off < TWO31 && fdt.v.NodeAt(off, l) && Resolve(Loc(Top, fdt.v.tree), e.path) == To(l)
    modifies fdt.buf, fdt`h, fdt`v
    ensures fdt.Valid() && fdt.h.totalsize == old(fdt.h.totalsize)
    ensures err == 0 ==> ApplyAt(l, e).To? && fdt.v.tree == Whole(ApplyAt(l, e).l)
    ensures err != 0 ==> fdt.v.tree == old(fdt.v.tree)
    ensures var f := LevelOf(old(fdt.h), old(fdt.v));
      && (err == 0 <==> ApplyAt(l, e).To? && RoomAt(f, l, e))
      && (err == -ERR_NOSPACE <==> ApplyAt(l, e).To? && !RoomAt(f, l, e))
      && Used(fdt.h) <= f.used + EditBulk(e)
  {
    hide View.Ok, View.NodeAt, View.PropAt, NodeCheck, Editable, Legible, FindKid, FindProp, Resolve, SetAt, Grown,
      Regrown, NodeErased, EditedBy, Whole, SetFill, Align4;
    ghost var f := LevelOf(fdt.h, fdt.v);
    ghost var prop, c;
    ValidFacts(fdt);
    NodeAtCheck(fdt.v, off, l);
    match e
    case Set(_, name, value) =>
      SetBulkNew(f, l.node.props, name, |value|);
      err, prop, c := Setprop(fdt, off, name, value, l);
    case Append(_, name, value) =>
      ghost var q := FindProp(l.node.props, name, 0);
      SetBulk(f, l.node.props, name, |Extended(l.node.props, name, value)|, |value|);
      if q < |l.node.props| { ValueFits(fdt.v, off, l, q); }
      err, prop, c := Appendprop(fdt, off, name, value, l);
    case Delete(_, name) =>
      err, c := Delprop(fdt, off, name, l);
      if err == 0 {
        RegrownTree(old(fdt.v), fdt.v, c, off, WithProps(l, Removed(l.node.props, FindProp(l.node.props, name, 0))));
      }
    case Add(_, name) =>
      err, c := AddSubnodeNamelen(fdt, off, name, l);
      if err >= 0 {
        GrownTree(old(fdt.v), fdt.v, c, off, l, name, err);
        err := 0;
      }
    case Remove(path) =>
      ghost var k :| 0 <= k < |path| && path[k] != SLASH;
      ResolveDeeper(Loc(Top, fdt.v.tree), path, k);
      err, c := DelNode(fdt, off, l);
  }

  lemma RegrownTree(v: View, v': View, c: Cut, off: int, l': Loc)
    requires Regrown(v, v', c, off, l')
    ensures v'.tree == Whole(l')
  {
  }

  lemma GrownTree(v: View, v': View, c: Cut, off: int, l: Loc, name: bytes, at: int)
    requires Grown(v, v', c, off, l, name, at)
    ensures v'.tree == Whole(WithKids(l, [Node(name, [], [])] + l.node.kids))
  {
  }

  /** One edit. */
  method DoEdit(fdt: Blob, e: Edit) returns (err: int)
    requires fdt.Valid() && Sensible(e, fdt.h.totalsize)
    modifies fdt.buf, fdt`h, fdt`v, fdt`rsv
    ensures fdt.Valid() && fdt.h.totalsize == old(fdt.h.totalsize)
    ensures err == 0 ==> Apply(old(ModelOf(fdt)), e) == Now(ModelOf(fdt))
    ensures err != 0 ==> ModelOf(fdt) == old(ModelOf(fdt))
    ensures var f, m := LevelOf(old(fdt.h), old(fdt.v)), old(ModelOf(fdt));
      && (err == 0 <==> Apply(m, e).Now? && RoomFor(f, m, e))
      && (err == -ERR_NOSPACE <==> Apply(m, e).Now? && !RoomFor(f, m, e))
      && Used(fdt.h) <= f.used + EditBulk(e)
  {
    hide View.Ok, View.NodeAt, Editable, Legible, Resolve, ApplyAt, RoomAt, Whole;
    ValidFacts(fdt);
    match e
    case Reserve(address, size) => err := AddMemRsv(fdt, address, size);
    case Unreserve(n) => err := DelMemRsv(fdt, n);
    case _ =>
      var off := PathOffset(fdt, e.path);
      if off < 0 { return off; }
      err := EditNode(fdt, e, off, Resolve(Root(fdt.v), e.path).l);
  }

  /** A session that goes on whatever its edits return: open, any edits, pack. Once the blob is open the packed blob
      holds the tree and the reserve map that the same edits, without those that failed, make of the abstract ones,
      and has no gaps. An edit fails only when it is refused or does not fit. A blob that cannot be opened is left
      alone. */
  method Run(fdt: Blob, dst: Blob, bufsize: nat, edits: seq<Edit>) returns (err: int, errs: seq<int>)
    requires fdt.Sane() && bufsize <= dst.buf.Length < TWO31
    requires HeaderError(fdt.h) == 0 ==> Complete(fdt.h, fdt.buf[..], fdt.v, fdt.rsv)
    requires dst == fdt || dst.buf != fdt.buf
    requires forall i :: 0 <= i < |edits| ==> Sensible(edits[i], bufsize)
    modifies dst, dst.buf
    ensures err == if HeaderError(old(fdt.h)) != 0 then HeaderError(old(fdt.h))
      else if bufsize < RoomNeeded(old(fdt.h), old(fdt.v), old(fdt.rsv), dst == fdt) then -ERR_NOSPACE else 0
    ensures err != 0 ==> dst.h == old(dst.h) && dst.buf[..] == old(dst.buf[..]) && ModelOf(dst) == old(ModelOf(dst))
    ensures err == 0 ==> dst.Valid() && Told(old(ModelOf(fdt)), edits, errs)
    ensures err == 0 ==> ModelOf(dst) == AfterAll(old(ModelOf(fdt)), edits, errs)
    ensures err == 0 && UsedOnceOpen(old(fdt.h), old(fdt.v), old(fdt.rsv)) + TotalBulk(edits) <= bufsize ==>
      ModelOf(dst) == AllDone(old(ModelOf(fdt)), edits) && forall i :: 0 <= i < |errs| ==> errs[i] != -ERR_NOSPACE
    ensures err == 0 ==> dst.h.totalsize == 56 + 16 * |dst.rsv| + dst.h.sizeStruct + dst.h.sizeStrings
  {
    hide View.Ok, Editable, Legible, Complete, Sensible, Apply, RoomNeeded, UsedOnceOpen, HeaderError, Used, Told,
      AfterAll, AllDone, TotalBulk;
    ghost var m0 := ModelOf(fdt);
    errs := [];
    err := OpenInto(fdt, dst, bufsize);
    if err != 0 { return; }
    assert ModelOf(dst) == m0 by { TrimmedTree(old(fdt.v)); }
    errs := DoEdits(dst, edits);
    ValidFacts(dst);
    err := Pack(dst);
  }

  /** Any edits of an open blob. */
  method DoEdits(fdt: Blob, edits: seq<Edit>) returns (errs: seq<int>)
    requires fdt.Valid() && forall i :: 0 <= i < |edits| ==> Sensible(edits[i], fdt.h.totalsize)
    modifies fdt.buf, fdt`h, fdt`v, fdt`rsv
    ensures fdt.Valid() && fdt.h.totalsize == old(fdt.h.totalsize)
    ensures Told(old(ModelOf(fdt)), edits, errs) && ModelOf(fdt) == AfterAll(old(ModelOf(fdt)), edits, errs)
    ensures Used(old(fdt.h)) + TotalBulk(edits) <= fdt.h.totalsize ==>
      ModelOf(fdt) == AllDone(old(ModelOf(fdt)), edits) && forall i :: 0 <= i < |errs| ==> errs[i] != -ERR_NOSPACE
  {
    hide View.Ok, Editable, Legible, Sensible, Apply, RoomFor, SoFar, Used;
    ghost var m0, used := ModelOf(fdt), Used(fdt.h);
    errs := [];
    var i := 0;
    SoFarStart(m0, used, edits, LevelOf(fdt.h, fdt.v));
    while i < |edits|
      invariant i <= |edits| && fdt.Valid() && fdt.h.totalsize == old(fdt.h.totalsize)
      invariant SoFar(m0, used, edits, i, errs, LevelOf(fdt.h, fdt.v), ModelOf(fdt))
    {
      ghost var f, m := LevelOf(fdt.h, fdt.v), ModelOf(fdt);
      var r := DoEdit(fdt, edits[i]);
      SoFarStep(m0, used, edits, i, errs, f, m, r, LevelOf(fdt.h, fdt.v), ModelOf(fdt));
      errs := errs + [r];
      i := i + 1;
    }
    SoFarEnd(m0, used, edits, errs, LevelOf(fdt.h, fdt.v), ModelOf(fdt));
  }

  /** What holds after the first `i` edits of a session that began at `m0` with `used` bytes. */
  predicate SoFar(m0: Model, used: int, es: seq<Edit>, i: nat, errs: seq<int>, f: Level, m: Model) {
    && i <= |es| && |errs| == i && Told(m0, es[..i], errs) && m == AfterAll(m0, es[..i], errs)
    && f.used <= used + TotalBulk(es[..i])
    && (used + TotalBulk(es) <= f.total ==> forall j :: 0 <= j < i ==> errs[j] != -ERR_NOSPACE)
  }

  lemma SoFarStart(m0: Model, used: int, es: seq<Edit>, f: Level)
    requires f.used == used
    ensures SoFar(m0, used, es, 0, [], f, m0)
  {
    assert es[..0] == [];
    NoBulk();
  }

  lemma SoFarStep(m0: Model, used: int, es: seq<Edit>, i: nat, errs: seq<int>, f: Level, m: Model, r: int, f': Level,
                  m': Model)
    requires SoFar(m0, used, es, i, errs, f, m) && i < |es| && f'.total == f.total
    requires if r == 0 then Apply(m, es[i]) == Now(m') else m' == m
    requires r == 0 <==> Apply(m, es[i]).Now? && RoomFor(f, m, es[i])
    requires r == -ERR_NOSPACE <==> Apply(m, es[i]).Now? && !RoomFor(f, m, es[i])
    requires f'.used <= f.used + EditBulk(es[i])
    ensures SoFar(m0, used, es, i + 1, errs + [r], f', m')
  {
    hide Apply, RoomFor, EditBulk, TotalBulk, Told, AfterAll;
    ToldMore(m0, es[..i], errs, es[i], r);
    assert es[..i + 1] == es[..i] + [es[i]];
    BulkMore(es[..i], es[i]);
    BulkPart(es, i + 1);
    if used + TotalBulk(es) <= f.total { BulkSuffices(f, m, es[i]); }
  }

  lemma SoFarEnd(m0: Model, used: int, es: seq<Edit>, errs: seq<int>, f: Level, m: Model)
    requires SoFar(m0, used, es, |es|, errs, f, m)
    ensures Told(m0, es, errs) && m == AfterAll(m0, es, errs)
    ensures used + TotalBulk(es) <= f.total ==>
      m == AllDone(m0, es) && forall j :: 0 <= j < |errs| ==> errs[j] != -ERR_NOSPACE
  {
    hide Apply, RoomFor, EditBulk, TotalBulk, Told, AfterAll;
    assert es[..|es|] == es;
    if used + TotalBulk(es) <= f.total { ToldAllDone(m0, es, errs); }
  }

  lemma NoBulk()
    ensures TotalBulk([]) == 0
  {
  }

  lemma TrimmedTree(v: View)
    ensures Trimmed(v).tree == v.tree
  {
  }
}
