/** The embedded-list form of a message.

    In the converter a message is a list of segments, a segment a list of
    fields, and a field either a plain string, a list of component strings,
    or a list of repetitions that are themselves lists of component strings.
    Here that union of strings and lists is the two-variant `Tree`. */
module Trees {
  import opened Results

  datatype Tree = Leaf(text: string) | Node(kids: seq<Tree>)

  /** A leaf reached from some tree by `path`, the 1-based child index taken
      at each level, holding `value`. */
  datatype Spot = Spot(path: seq<nat>, value: string)

  predicate AllLeaves(ts: seq<Tree>) {
    forall i :: 0 <= i < |ts| ==> ts[i].Leaf?
  }

  /** The leaves holding `vs`, in order. */
  function LeafList(vs: seq<string>): (ts: seq<Tree>)
    ensures |ts| == |vs| && AllLeaves(ts)
    ensures forall i :: 0 <= i < |vs| ==> ts[i].text == vs[i]
  {
    seq(|vs|, i requires 0 <= i < |vs| => Leaf(vs[i]))
  }

  /** The strings held by a list of leaves. */
  function Texts(ts: seq<Tree>): (vs: seq<string>)
    requires AllLeaves(ts)
    ensures |vs| == |ts|
    ensures LeafList(vs) == ts
  {
    seq(|ts|, i requires 0 <= i < |ts| => ts[i].text)
  }

  /** 1-based addressing: the subtree reached by following `p`, if any. */
  function At(t: Tree, p: seq<nat>): Option<Tree>
  {
    if p == [] then Some(t)
    else match t
      case Leaf(_) => None
      case Node(kids) =>
        if 1 <= p[0] <= |kids| then At(kids[p[0] - 1], p[1..]) else None
  }

  /** Every leaf of `t` with its path, depth first and left to right. */
  function Paths(t: Tree): seq<Spot>
    decreases t, 1
  {
    match t
    case Leaf(v) => [Spot([], v)]
    case Node(kids) => KidsPaths(kids, |kids|)
  }

  /** The leaves of the first `n` children, each path prefixed by the
      child's 1-based index. */
  function KidsPaths(kids: seq<Tree>, n: nat): seq<Spot>
    requires n <= |kids|
    decreases kids, n
  {
    if n == 0 then []
    else KidsPaths(kids, n - 1) + Under(n, Paths(kids[n - 1]))
  }

  /** The same leaves seen from one level up, through child number `k`. */
  function Under(k: nat, ps: seq<Spot>): (us: seq<Spot>)
    ensures |us| == |ps|
  {
    seq(|ps|, i requires 0 <= i < |ps| => Spot([k] + ps[i].path, ps[i].value))
  }

  predicate DistinctPaths(ps: seq<Spot>) {
    forall i, j :: 0 <= i < j < |ps| ==> ps[i].path != ps[j].path
  }

  /** A spot listed for the first `n` children is a spot of one of them,
      seen through its index. */
  lemma {:induction false} KidsPathsMember(kids: seq<Tree>, n: nat, s: Spot)
    requires n <= |kids|
    ensures s in KidsPaths(kids, n) <==>
      (|s.path| >= 1 && 1 <= s.path[0] <= n &&
       Spot(s.path[1..], s.value) in Paths(kids[s.path[0] - 1]))
  {
    if n > 0 {
      KidsPathsMember(kids, n - 1, s);
      var ps := Paths(kids[n - 1]);
      var us := Under(n, ps);
      if s in us {
        var i :| 0 <= i < |us| && us[i] == s;
        assert s.path[1..] == ps[i].path;
        assert ps[i] == Spot(s.path[1..], s.value);
      }
      if |s.path| >= 1 && s.path[0] == n && Spot(s.path[1..], s.value) in ps {
        var i :| 0 <= i < |ps| && ps[i] == Spot(s.path[1..], s.value);
        assert us[i] == s;
      }
    }
  }

  /** The spots of a tree are exactly its leaves: `Paths` lists `(p, v)` if
      and only if following `p` reaches the leaf `v`. */
  lemma {:induction false} PathsAt(t: Tree, p: seq<nat>, v: string)
    ensures Spot(p, v) in Paths(t) <==> At(t, p) == Some(Leaf(v))
    decreases t
  {
    match t
    case Leaf(_) =>
    case Node(kids) =>
      KidsPathsMember(kids, |kids|, Spot(p, v));
      if p != [] && 1 <= p[0] <= |kids| {
        PathsAt(kids[p[0] - 1], p[1..], v);
      }
  }

  /** Distinct leaves have distinct paths. */
  lemma {:induction false} PathsDistinct(t: Tree)
    ensures DistinctPaths(Paths(t))
    decreases t, 1
  {
    match t
    case Leaf(_) =>
    case Node(kids) => KidsPathsDistinct(kids, |kids|);
  }

  lemma {:induction false} KidsPathsDistinct(kids: seq<Tree>, n: nat)
    requires n <= |kids|
    ensures DistinctPaths(KidsPaths(kids, n))
    ensures forall i :: 0 <= i < |KidsPaths(kids, n)| ==>
      |KidsPaths(kids, n)[i].path| >= 1 && 1 <= KidsPaths(kids, n)[i].path[0] <= n
    decreases kids, n
  {
    if n > 0 {
      KidsPathsDistinct(kids, n - 1);
      PathsDistinct(kids[n - 1]);
      var a := KidsPaths(kids, n - 1);
      var ps := Paths(kids[n - 1]);
      var us := Under(n, ps);
      var all := a + us;
      forall i, j | 0 <= i < j < |all|
        ensures all[i].path != all[j].path
      {
        if j < |a| {
          assert all[i] == a[i] && all[j] == a[j];
        } else if i < |a| {
          assert all[i].path[0] < n == all[j].path[0];
        } else {
          assert all[i].path[1..] == ps[i - |a|].path;
          assert all[j].path[1..] == ps[j - |a|].path;
        }
      }
    }
  }

  // ---- the shapes the parser produces ----

  /** A field split into components: one or more plain strings. */
  predicate IsComponents(f: Tree) {
    f.Node? && |f.kids| >= 1 && AllLeaves(f.kids)
  }

  /** A repeated field: two or more repetitions, each a component list. */
  predicate IsRepetitions(f: Tree) {
    f.Node? && |f.kids| >= 2 &&
    forall r :: 0 <= r < |f.kids| ==> IsComponents(f.kids[r])
  }

  predicate IsField(f: Tree) {
    f.Leaf? || IsComponents(f) || IsRepetitions(f)
  }

  /** A segment: a list of well-shaped fields. */
  predicate IsSegment(s: Tree) {
    s.Node? && forall j :: 0 <= j < |s.kids| ==> IsField(s.kids[j])
  }

  /** Below a segment, every leaf sits one, two or three levels down. */
  lemma SegmentLeafDepth(s: Tree, p: seq<nat>, v: string)
    requires IsSegment(s)
    requires At(s, p) == Some(Leaf(v))
    ensures 1 <= |p| <= 3
  {
    var f := s.kids[p[0] - 1];
    var q := p[1..];
    assert At(f, q) == Some(Leaf(v));
    if q != [] {
      var g := f.kids[q[0] - 1];
      assert At(g, q[1..]) == Some(Leaf(v));
      if q[1..] != [] {
        assert g.Node?;
        assert IsComponents(g);
        assert At(g.kids[q[1] - 1], q[2..]) == Some(Leaf(v));
      }
    }
  }
}
