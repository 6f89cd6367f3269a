/** The in-memory directory snapshot: each node is the dictionary the loader
    builds from one JSON object. A node addresses one of its descendants by a
    position, the list of child indices taken from it downwards. */
module Tree {
  import opened Wrappers

  /** `contents` is `None` when the dictionary has no `contents` key. */
  datatype Node = Node(
    name: string,
    size: int,
    timeModified: int,
    permissions: string,
    contents: Option<seq<Node>>)

  /** `'contents' in item`: the key is present, possibly with an empty list. */
  predicate IsDir(n: Node)
  {
    n.contents.Some?
  }

  /** `item.get('contents')` is truthy: the key is present and the list is non-empty. */
  predicate HasEntries(n: Node)
  {
    n.contents.Some? && |n.contents.value| > 0
  }

  /** `item.get('contents', [])`. */
  function Children(n: Node): (cs: seq<Node>)
    ensures HasEntries(n) <==> |cs| > 0
    ensures IsDir(n) ==> cs == n.contents.value
  {
    if n.contents.Some? then n.contents.value else []
  }

  predicate ValidPos(t: Node, pos: seq<nat>)
    decreases pos
  {
    pos == [] || (pos[0] < |Children(t)| && ValidPos(Children(t)[pos[0]], pos[1..]))
  }

  /** The node at `pos` below `t`. */
  function At(t: Node, pos: seq<nat>): Node
    requires ValidPos(t, pos)
    decreases pos
  {
    if pos == [] then t else At(Children(t)[pos[0]], pos[1..])
  }

  /** `t` with the node at `pos` replaced by `n`: what an in-place write to that
      node does to the whole tree. */
  function Update(t: Node, pos: seq<nat>, n: Node): (r: Node)
    requires ValidPos(t, pos)
    ensures ValidPos(r, pos) && At(r, pos) == n
    decreases pos
  {
    if pos == [] then n
    else
      var cs := Children(t);
      var r := t.(contents := Some(cs[pos[0] := Update(cs[pos[0]], pos[1..], n)]));
      assert Children(r)[pos[0]] == Update(cs[pos[0]], pos[1..], n);
      r
  }

  /** Descending along `p` then along `q` is descending along `p + q`. */
  lemma {:induction false} AtConcat(t: Node, p: seq<nat>, q: seq<nat>)
    requires ValidPos(t, p)
    ensures ValidPos(t, p + q) <==> ValidPos(At(t, p), q)
    ensures ValidPos(t, p + q) ==> At(t, p + q) == At(At(t, p), q)
    decreases p
  {
    if p != [] {
      var c := Children(t)[p[0]];
      assert (p + q)[0] == p[0] && (p + q)[1..] == p[1..] + q;
      assert ValidPos(t, p + q) == ValidPos(c, p[1..] + q);
      AtConcat(c, p[1..], q);
      if ValidPos(t, p + q) {
        assert At(t, p + q) == At(c, p[1..] + q);
      }
    } else {
      assert p + q == q;
    }
  }

  /** One more step down: the child `j` of the node at `pos`. */
  lemma AtChild(t: Node, pos: seq<nat>, j: nat)
    requires ValidPos(t, pos) && j < |Children(At(t, pos))|
    ensures ValidPos(t, pos + [j]) && At(t, pos + [j]) == Children(At(t, pos))[j]
  {
    AtConcat(t, pos, [j]);
  }

  /** A second write to the same node overwrites the first. */
  lemma {:induction false} UpdateUpdate(t: Node, pos: seq<nat>, a: Node, b: Node)
    requires ValidPos(t, pos)
    ensures Update(Update(t, pos, a), pos, b) == Update(t, pos, b)
    decreases pos
  {
    if pos != [] {
      var cs, i := Children(t), pos[0];
      var ta := Update(t, pos, a);
      assert Children(ta) == cs[i := Update(cs[i], pos[1..], a)];
      UpdateUpdate(cs[i], pos[1..], a, b);
      assert Children(ta)[i := Update(Children(ta)[i], pos[1..], b)] == cs[i := Update(cs[i], pos[1..], b)];
    }
  }

  /** Writing back the node that is already there changes nothing. */
  lemma {:induction false} UpdateSame(t: Node, pos: seq<nat>)
    requires ValidPos(t, pos)
    ensures Update(t, pos, At(t, pos)) == t
    decreases pos
  {
    if pos != [] {
      var cs := Children(t);
      UpdateSame(cs[pos[0]], pos[1..]);
      assert cs[pos[0] := cs[pos[0]]] == cs;
    }
  }

  /** A write at `pos` leaves every node off that branch as it was: any position
      that is not a prefix of `pos` and does not extend it. */
  lemma {:induction false} UpdateElsewhere(t: Node, pos: seq<nat>, n: Node, q: seq<nat>)
    requires ValidPos(t, pos) && ValidPos(t, q)
    requires !(q <= pos) && !(pos <= q)
    ensures ValidPos(Update(t, pos, n), q) && At(Update(t, pos, n), q) == At(t, q)
    decreases pos
  {
    var cs := Children(t);
    var r := Update(t, pos, n);
    assert Children(r) == cs[pos[0] := Update(cs[pos[0]], pos[1..], n)];
    if q[0] != pos[0] {
      assert Children(r)[q[0]] == cs[q[0]];
    } else {
      UpdateElsewhere(cs[pos[0]], pos[1..], n, q[1..]);
    }
  }

  /** The fields of a node that a write somewhere below it leaves alone. */
  predicate SameFields(a: Node, b: Node)
  {
    a.name == b.name && a.size == b.size && a.timeModified == b.timeModified &&
    a.permissions == b.permissions && IsDir(a) == IsDir(b)
  }

  /** `b` is `a` after a write below its child `j`: same fields, as many
      children, and every child but `j` as it was. */
  predicate KeptAbove(a: Node, b: Node, j: nat)
  {
    SameFields(a, b) && |Children(b)| == |Children(a)| && j < |Children(a)| &&
    forall i :: 0 <= i < |Children(a)| && i != j ==> Children(b)[i] == Children(a)[i]
  }

  /** `r` differs from `t` only inside the subtree at `pos`: each node above
      `pos` keeps its own fields and its other children, and every node off the
      branch is unchanged. */
  ghost predicate ChangedOnlyBelow(t: Node, r: Node, pos: seq<nat>)
  {
    ValidPos(t, pos) && ValidPos(r, pos) &&
    (forall q :: q < pos ==> ValidPos(t, q) && ValidPos(r, q) && KeptAbove(At(t, q), At(r, q), pos[|q|])) &&
    (forall q :: ValidPos(t, q) && !(q <= pos) && !(pos <= q) ==> ValidPos(r, q) && At(r, q) == At(t, q))
  }

  /** A write at `pos` keeps every node above it but for the one child on the
      branch. */
  lemma {:induction false} UpdateAbove(t: Node, pos: seq<nat>, n: Node, q: seq<nat>)
    requires ValidPos(t, pos) && q < pos
    ensures ValidPos(t, q) && ValidPos(Update(t, pos, n), q)
    ensures KeptAbove(At(t, q), At(Update(t, pos, n), q), pos[|q|])
    decreases q
  {
    var cs := Children(t);
    var r := Update(t, pos, n);
    assert Children(r) == cs[pos[0] := Update(cs[pos[0]], pos[1..], n)];
    if q != [] {
      assert q[1..] < pos[1..];
      UpdateAbove(cs[pos[0]], pos[1..], n, q[1..]);
    }
  }

  /** A write at `pos` changes the tree only inside the subtree at `pos`. */
  lemma UpdateFrame(t: Node, pos: seq<nat>, n: Node)
    requires ValidPos(t, pos)
    ensures ChangedOnlyBelow(t, Update(t, pos, n), pos)
  {
    forall q | q < pos
      ensures ValidPos(t, q) && ValidPos(Update(t, pos, n), q) &&
        KeptAbove(At(t, q), At(Update(t, pos, n), q), pos[|q|])
    {
      UpdateAbove(t, pos, n, q);
    }
    forall q | ValidPos(t, q) && !(q <= pos) && !(pos <= q)
      ensures ValidPos(Update(t, pos, n), q) && At(Update(t, pos, n), q) == At(t, q)
    {
      UpdateElsewhere(t, pos, n, q);
    }
  }
}
