/** The abstract device tree, its event sequence, and locations inside a tree. */
module Trees {
  import opened Bytes

  datatype Prop = Prop(name: bytes, value: bytes)
  datatype Tree = Node(name: bytes, props: seq<Prop>, kids: seq<Tree>)

  /** What a walk over a tree meets, in order; `Fin` ends the whole structure block. */
  datatype Evt = Open(name: bytes) | Attr(prop: Prop) | Close | Fin

  function Attrs(ps: seq<Prop>): (r: seq<Evt>)
    ensures |r| == |ps|
  {
    seq(|ps|, i requires 0 <= i < |ps| => Attr(ps[i]))
  }

  function Flatten(t: Tree): seq<Evt>
    decreases t, 1
  {
    [Open(t.name)] + Attrs(t.props) + Forest(t.kids) + [Close]
  }

  function Forest(ks: seq<Tree>): seq<Evt>
    decreases ks, 0
  {
    if ks == [] then [] else Flatten(ks[0]) + Forest(ks[1..])
  }

  lemma {:induction false} ForestAppend(a: seq<Tree>, b: seq<Tree>)
    ensures Forest(a + b) == Forest(a) + Forest(b)
  {
    if a == [] {
      assert a + b == b;
    } else {
      assert (a + b)[1..] == a[1..] + b;
      ForestAppend(a[1..], b);
    }
  }

  lemma ForestOne(t: Tree)
    ensures Forest([t]) == Flatten(t)
  {
    assert [t][1..] == [];
  }

  /** A tree with one subtree missing. */
  datatype Ctx =
    | Top
    | In(up: Ctx, name: bytes, props: seq<Prop>, left: seq<Tree>, right: seq<Tree>)

  /** A node of a tree together with everything around it. */
  datatype Loc = Loc(ctx: Ctx, node: Tree)

  function Plug(c: Ctx, t: Tree): Tree
    decreases c
  {
    match c
    case Top => t
    case In(up, name, props, left, right) => Plug(up, Node(name, props, left + [t] + right))
  }

  function Whole(l: Loc): Tree { Plug(l.ctx, l.node) }

  function Depth(c: Ctx): nat {
    if c.Top? then 0 else 1 + Depth(c.up)
  }

  /** The opening events of a node up to the end of some of its children. */
  function Head(name: bytes, props: seq<Prop>, left: seq<Tree>): seq<Evt> {
    [Open(name)] + Attrs(props) + Forest(left)
  }

  /** The events before and after the missing subtree. */
  function Pre(c: Ctx): seq<Evt> {
    match c
    case Top => []
    case In(up, name, props, left, _) => Pre(up) + Head(name, props, left)
  }

  function Post(c: Ctx): seq<Evt> {
    match c
    case Top => []
    case In(up, _, _, _, right) => Forest(right) + [Close] + Post(up)
  }

  lemma Regroup<T>(a: seq<T>, h: seq<T>, f: seq<T>, r: seq<T>, b: seq<T>)
    ensures a + (h + f + r) + b == (a + h) + f + (r + b)
  {
  }

  lemma FlattenAround(name: bytes, props: seq<Prop>, left: seq<Tree>, t: Tree, right: seq<Tree>)
    ensures Flatten(Node(name, props, left + [t] + right))
         == Head(name, props, left) + Flatten(t) + (Forest(right) + [Close])
  {
    ForestAppend(left + [t], right);
    ForestAppend(left, [t]);
    ForestOne(t);
    var h := [Open(name)] + Attrs(props);
    calc {
      Flatten(Node(name, props, left + [t] + right));
      h + Forest(left + [t] + right) + [Close];
      h + (Forest(left) + Flatten(t) + Forest(right)) + [Close];
      { Regroup(h, Forest(left), Flatten(t), Forest(right), [Close]); }
      (h + Forest(left)) + Flatten(t) + (Forest(right) + [Close]);
    }
  }

  lemma {:induction false} FlattenPlug(c: Ctx, t: Tree)
    ensures Flatten(Plug(c, t)) == Pre(c) + Flatten(t) + Post(c)
    decreases c
  {
    match c
    case Top =>
    case In(up, name, props, left, right) =>
      FlattenPlug(up, Node(name, props, left + [t] + right));
      FlattenAround(name, props, left, t, right);
      Regroup(Pre(up), Head(name, props, left), Flatten(t), Forest(right) + [Close], Post(up));
  }

  function Parent(l: Loc): Loc
    requires l.ctx.In?
  {
    Loc(l.ctx.up, Node(l.ctx.name, l.ctx.props, l.ctx.left + [l.node] + l.ctx.right))
  }

  function Child(l: Loc, i: nat): Loc
    requires i < |l.node.kids|
  {
    Loc(In(l.ctx, l.node.name, l.node.props, l.node.kids[..i], l.node.kids[i + 1..]), l.node.kids[i])
  }

  lemma ChildParent(l: Loc, i: nat)
    requires i < |l.node.kids|
    ensures Parent(Child(l, i)) == l
    ensures Whole(Child(l, i)) == Whole(l)
  {
    assert l.node.kids[..i] + [l.node.kids[i]] + l.node.kids[i + 1..] == l.node.kids;
  }

  /** Everything in the event sequence from a location's node onwards. */
  function From(l: Loc): seq<Evt> {
    Flatten(l.node) + Post(l.ctx) + [Fin]
  }

  /** Everything after the opening of a location's node. */
  function Inside(l: Loc): seq<Evt> {
    Attrs(l.node.props) + Forest(l.node.kids) + [Close] + Post(l.ctx) + [Fin]
  }

  lemma FromInside(l: Loc)
    ensures From(l) == [Open(l.node.name)] + Inside(l)
  {
    calc {
      From(l);
      ([Open(l.node.name)] + Attrs(l.node.props) + Forest(l.node.kids) + [Close]) + Post(l.ctx) + [Fin];
      [Open(l.node.name)] + Inside(l);
    }
  }

  lemma PreFrom(l: Loc)
    ensures Flatten(Whole(l)) + [Fin] == Pre(l.ctx) + From(l)
  {
    FlattenPlug(l.ctx, l.node);
    assert Pre(l.ctx) + Flatten(l.node) + Post(l.ctx) + [Fin] == Pre(l.ctx) + From(l);
  }
}
