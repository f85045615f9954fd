/** What one replacement achieves when names may depend on themselves: when the tree it leaves is still a tree, and when
    the name is without conflict afterwards. */
module IpSettle {
  import opened IpConflicts
  import opened IpTree

  lemma {:induction false} SubstNone(cs: seq<IPTreeNode>, d: IPTreeNode)
    requires d.ip.Some? && forall i :: 0 <= i < |cs| ==> !cs[i].Named(d.ip.value.name)
    ensures Subst(cs, d) == cs
  {
    if cs != [] {
      SubstNone(cs[..|cs| - 1], d);
    }
  }

  /** h is the tree that the replacement by d below the root leaves, under any ranking. */
  ghost predicate Leaves(g: Graph, root: IPTreeNode, d: IPTreeNode, h: Graph) {
    && g.Acyclic() && root in g.kids && root.ip.None? && d in g.kids && d.ip.Some?
    && h.kids == g.Normalize(root, d).kids
  }

  ghost function Rewritten(g: Graph, root: IPTreeNode, d: IPTreeNode): set<IPTreeNode>
    requires g.Acyclic() && root in g.kids && d.ip.Some?
  {
    g.VisitedAt(root, d.ip.value.name)
  }

  /** Below d, the tree h is as it was. */
  lemma {:induction false} SameBelow(g: Graph, root: IPTreeNode, d: IPTreeNode, h: Graph, b: nat, gb: nat,
                                     cs: seq<IPTreeNode>)
    requires Leaves(g, root, d, h) && h.Acyclic() && h.Below(b, cs) && g.Below(gb, cs) && b <= h.rank(d)
    ensures h.FlatKids(b, cs) == g.FlatKids(gb, cs)
    decreases b, |cs|
  {
    if cs != [] {
      var n := |cs| - 1;
      var c := cs[n];
      SameBelow(g, root, d, h, b, gb, cs[..n]);
      KidsKept(g, root, d, h, c);
      SameBelow(g, root, d, h, h.rank(c), g.rank(c), g.kids[c]);
    }
  }

  lemma {:induction false} KidIs(g: Graph, root: IPTreeNode, d: IPTreeNode, h: Graph, c: IPTreeNode, i: nat)
    requires Leaves(g, root, d, h) && c in Rewritten(g, root, d) && c in g.kids && i < |g.kids[c]|
    ensures |h.kids[c]| == |g.kids[c]| && h.kids[c][i] == Chosen(g.kids[c][i], d)
  {
    SubstAt(g.kids[c], d, i);
  }

  /** A node ranked below d has not been given d as a child. */
  lemma {:induction false} KidsKept(g: Graph, root: IPTreeNode, d: IPTreeNode, h: Graph, c: IPTreeNode)
    requires Leaves(g, root, d, h) && h.Acyclic() && c in g.kids && h.rank(c) <= h.rank(d)
    ensures h.kids[c] == g.kids[c]
  {
    if c in Rewritten(g, root, d) {
      var kids := g.kids[c];
      forall i | 0 <= i < |kids| ensures !kids[i].Named(d.ip.value.name) {
        KidIs(g, root, d, h, c, i);
        assert h.rank(h.kids[c][i]) < h.rank(c);
      }
      SubstNone(kids, d);
    }
  }

  /** The nodes of the name of d below d itself. */
  ghost function Own(g: Graph, d: IPTreeNode): seq<IPTreeNode>
    requires g.Acyclic() && d in g.kids && d.ip.Some?
  {
    g.Occ(g.rank(d), g.kids[d], d.ip.value.name)
  }

  lemma {:induction false} OwnKept(g: Graph, root: IPTreeNode, d: IPTreeNode, h: Graph)
    requires Leaves(g, root, d, h) && h.Acyclic()
    ensures h.kids[d] == g.kids[d] && h.Flat(d) == g.Flat(d) && Own(h, d) == Own(g, d)
  {
    var m := d.ip.value.name;
    KidsKept(g, root, d, h, d);
    SameBelow(g, root, d, h, h.rank(d), g.rank(d), g.kids[d]);
    g.OccIsFilter(g.rank(d), g.kids[d], m);
    h.OccIsFilter(h.rank(d), h.kids[d], m);
  }

  /** What is left under the name: copies of d, and what d brings along. */
  lemma {:induction false} OnlyOwn(g: Graph, root: IPTreeNode, d: IPTreeNode, h: Graph, b: nat, gb: nat,
                                   cs: seq<IPTreeNode>, x: IPTreeNode)
    requires Leaves(g, root, d, h) && h.Acyclic() && g.Below(gb, cs) && h.Below(b, Subst(cs, d))
    requires g.Visited(gb, cs, d.ip.value.name) <= Rewritten(g, root, d)
    ensures x in h.Occ(b, Subst(cs, d), d.ip.value.name) ==> x == d || x in Own(h, d)
    ensures g.Occ(gb, cs, d.ip.value.name) != [] && (x == d || x in Own(h, d)) ==>
              x in h.Occ(b, Subst(cs, d), d.ip.value.name)
    decreases gb, |cs|
  {
    if cs != [] {
      var n, m := |cs| - 1, d.ip.value.name;
      var front := Subst(cs[..n], d);
      h.OccSnoc(b, front, Chosen(cs[n], d), m);
      OnlyOwn(g, root, d, h, b, gb, cs[..n], x);
      OnlyOwnAt(g, root, d, h, cs[n], x);
    }
  }

  lemma {:induction false} OnlyOwnAt(g: Graph, root: IPTreeNode, d: IPTreeNode, h: Graph, c: IPTreeNode, x: IPTreeNode)
    requires Leaves(g, root, d, h) && h.Acyclic() && c in g.kids && c.ip.Some?
    requires g.VisitedAt(c, d.ip.value.name) <= Rewritten(g, root, d)
    ensures x in h.OccAt(Chosen(c, d), d.ip.value.name) ==> x == d || x in Own(h, d)
    ensures g.OccAt(c, d.ip.value.name) != [] && (x == d || x in Own(h, d)) ==>
              x in h.OccAt(Chosen(c, d), d.ip.value.name)
    decreases g.rank(c), |g.kids[c]| + 1
  {
    if !c.Named(d.ip.value.name) {
      assert h.kids[c] == Subst(g.kids[c], d);
      OnlyOwn(g, root, d, h, h.rank(c), g.rank(c), g.kids[c], x);
    }
  }

  lemma {:induction false} OneCommitIff(s: seq<IPTreeNode>, d: IPTreeNode)
    requires d in s
    ensures |FirstPerCommit(s)| <= 1 <==> forall i :: 0 <= i < |s| ==> Requested(s[i]) == Requested(d)
  {
    var p := FirstPerCommit(s);
    CommitsKept(s);
    if |p| <= 1 {
      forall i | 0 <= i < |s| ensures Requested(s[i]) == Requested(d) {
        CommitsMember(s, s[i]);
        CommitsMember(s, d);
        assert p == [] || (p == [p[0]] && p[..0] == []);
      }
    } else {
      assert p[0] in s && p[1] in s && Requested(p[0]) != Requested(p[1]);
    }
  }

  /** After the replacement the name of d is without conflict if and only if every node of that name below d itself
      asks for the commit of d: for any tree in which the root reaches d, as long as what is left is a tree. */
  lemma {:induction false} SettlesIff(g: Graph, root: IPTreeNode, d: IPTreeNode, h: Graph)
    requires Leaves(g, root, d, h) && h.Acyclic() && d in g.AtRoot(root, d.ip.value.name)
    ensures |FirstPerCommit(h.AtRoot(root, d.ip.value.name))| <= 1
            <==> forall i :: 0 <= i < |Own(g, d)| ==> Requested(Own(g, d)[i]) == Requested(d)
  {
    var m := d.ip.value.name;
    var left, own := h.AtRoot(root, m), Own(g, d);
    OwnKept(g, root, d, h);
    assert h.kids[root] == Subst(g.kids[root], d);
    OnlyOwn(g, root, d, h, h.rank(root), g.rank(root), g.kids[root], d);
    OneCommitIff(left, d);
    forall i | 0 <= i < |left| ensures left[i] == d || left[i] in own {
      OnlyOwn(g, root, d, h, h.rank(root), g.rank(root), g.kids[root], left[i]);
    }
    forall i | 0 <= i < |own| ensures own[i] in left {
      OnlyOwn(g, root, d, h, h.rank(root), g.rank(root), g.kids[root], own[i]);
    }
  }

  // ---- Whether what is left is a tree ----

  /** A node below d, reached by the replacement on another way, asks for the name of d. */
  ghost predicate Entangled(g: Graph, root: IPTreeNode, d: IPTreeNode)
    requires g.Acyclic() && root in g.kids && d in g.kids && d.ip.Some?
  {
    exists k, i :: 0 <= k < |g.Flat(d)| && Asks(g, root, d, g.Flat(d)[k], i)
  }

  ghost predicate Asks(g: Graph, root: IPTreeNode, d: IPTreeNode, x: IPTreeNode, i: int)
    requires g.Acyclic() && root in g.kids && d.ip.Some?
  {
    x in Rewritten(g, root, d) && x in g.kids && 0 <= i < |g.kids[x]| && g.kids[x][i].Named(d.ip.value.name)
  }

  /** Then d becomes its own descendant: there is no ranking, and a traversal does not end. */
  lemma {:induction false} EntangledHasNoRank(g: Graph, root: IPTreeNode, d: IPTreeNode, h: Graph)
    requires Leaves(g, root, d, h) && h.Acyclic()
    ensures !Entangled(g, root, d)
  {
    OwnKept(g, root, d, h);
    forall k, i | 0 <= k < |g.Flat(d)| ensures !Asks(g, root, d, g.Flat(d)[k], i) {
      var x := g.Flat(d)[k];
      h.FlatInGraph(h.rank(d), h.kids[d]);
      assert x == h.Flat(d)[k] && h.rank(x) < h.rank(d);
      if x in Rewritten(g, root, d) && 0 <= i < |g.kids[x]| {
        KidIs(g, root, d, h, x, i);
        assert h.rank(h.kids[x][i]) < h.rank(x);
      }
    }
  }

  lemma {:induction false} DescendsFurther(g: Graph, x: IPTreeNode, y: IPTreeNode, z: IPTreeNode)
    requires g.Acyclic() && x in g.kids && y in g.kids && g.Descends(x, y) && z in g.kids[y]
    ensures g.Descends(x, z)
    decreases g.rank(x)
  {
    var i :| 0 <= i < |g.kids[x]| && (g.kids[x][i] == y || g.Descends(g.kids[x][i], y));
    var c := g.kids[x][i];
    if c == y {
      var j :| 0 <= j < |g.kids[y]| && g.kids[y][j] == z;
      assert g.Descends(c, z);
    } else {
      DescendsFurther(g, c, y, z);
    }
  }

  /** d and what is below it. */
  ghost predicate Within(g: Graph, d: IPTreeNode, x: IPTreeNode)
    requires g.Acyclic() && d in g.kids
  {
    x == d || g.Descends(d, x)
  }

  lemma {:induction false} WithinClosed(g: Graph, d: IPTreeNode, x: IPTreeNode, y: IPTreeNode)
    requires g.Acyclic() && d in g.kids && x in g.kids && Within(g, d, x) && y in g.kids[x]
    ensures Within(g, d, y)
  {
    if x == d {
      var i :| 0 <= i < |g.kids[x]| && g.kids[x][i] == y;
    } else {
      DescendsFurther(g, d, x, y);
    }
  }

  /** Otherwise it is a tree: rank everything outside of d above d. */
  ghost function Lifted(g: Graph, root: IPTreeNode, d: IPTreeNode): Graph
    requires g.Acyclic() && root in g.kids && d in g.kids && d.ip.Some?
  {
    var flat := g.Flat(d);
    Graph(g.Normalize(root, d).kids,
          (x: IPTreeNode) => if x == d || x in flat then g.rank(x) else g.rank(x) + g.rank(d) + 1)
  }

  lemma {:induction false} SeparateHasRank(g: Graph, root: IPTreeNode, d: IPTreeNode)
    requires g.Acyclic() && root in g.kids && root.ip.None? && d in g.kids && d.ip.Some? && !Entangled(g, root, d)
    ensures Leaves(g, root, d, Lifted(g, root, d)) && Lifted(g, root, d).Acyclic()
  {
    var h := Lifted(g, root, d);
    forall x | x in h.kids ensures h.Below(h.rank(x), h.kids[x]) {
      forall i | 0 <= i < |h.kids[x]|
        ensures h.kids[x][i] in h.kids && h.kids[x][i].ip.Some? && h.rank(h.kids[x][i]) < h.rank(x)
      {
        LiftedEdge(g, root, d, x, i);
      }
    }
  }

  lemma {:induction false} LiftedEdge(g: Graph, root: IPTreeNode, d: IPTreeNode, x: IPTreeNode, i: nat)
    requires g.Acyclic() && root in g.kids && root.ip.None? && d in g.kids && d.ip.Some? && !Entangled(g, root, d)
    requires x in g.kids && i < |Lifted(g, root, d).kids[x]|
    ensures var h := Lifted(g, root, d);
            h.kids[x][i] in h.kids && h.kids[x][i].ip.Some? && h.rank(h.kids[x][i]) < h.rank(x)
  {
    var h := Lifted(g, root, d);
    var c := g.kids[x][i];
    if x in Rewritten(g, root, d) && c.Named(d.ip.value.name) {
      SubstAt(g.kids[x], d, i);
      g.VisitedNotNamed(g.rank(root), g.kids[root], d.ip.value.name);
      assert h.kids[x][i] == d && x != d;
      if x in g.Flat(d) {
        var k :| 0 <= k < |g.Flat(d)| && g.Flat(d)[k] == x;
        assert Asks(g, root, d, g.Flat(d)[k], i);
      }
    } else {
      assert h.kids[x][i] == c by {
        if x in Rewritten(g, root, d) {
          SubstAt(g.kids[x], d, i);
        }
      }
      g.FlatIff(d, x);
      g.FlatIff(d, c);
      if Within(g, d, x) {
        WithinClosed(g, d, x, c);
      }
    }
  }

  /** What the replacement leaves can be ranked as a tree if and only if d is not entangled. */
  lemma {:induction false} EntangledIsNoTree(g: Graph, root: IPTreeNode, d: IPTreeNode)
    requires g.Acyclic() && root in g.kids && root.ip.None? && d in g.kids && d.ip.Some?
    ensures Entangled(g, root, d) <==> forall rank :: !Graph(g.Normalize(root, d).kids, rank).Acyclic()
  {
    var kids := g.Normalize(root, d).kids;
    if Entangled(g, root, d) {
      forall rank ensures !Graph(kids, rank).Acyclic() {
        if Graph(kids, rank).Acyclic() {
          EntangledHasNoRank(g, root, d, Graph(kids, rank));
        }
      }
    } else {
      SeparateHasRank(g, root, d);
      assert Lifted(g, root, d) == Graph(kids, Lifted(g, root, d).rank);
    }
  }

  /** One replacement in place, below the root of any tree: what it leaves is a tree if and only if d is not entangled,
      and then the name of d is settled if and only if d brings no other commit of it along. */
  method Settle(root: IPTreeNode, d: IPTreeNode, ghost g: Graph) returns (r: IPTreeNode, ghost h: Graph)
    requires g.Acyclic() && g.IsSnapshot() && root in g.kids && root.ip.None? && d in g.kids && d.ip.Some?
    requires d in g.AtRoot(root, d.ip.value.name)
    modifies g.kids.Keys
    ensures r == root && h.IsSnapshot() && h.kids == g.Normalize(root, d).kids
    ensures h.Acyclic() <==> !Entangled(g, root, d)
    ensures Entangled(g, root, d) <==> forall rank :: !Graph(h.kids, rank).Acyclic()
    ensures h.Acyclic() ==>
              (|FirstPerCommit(h.AtRoot(root, d.ip.value.name))| <= 1
               <==> forall i :: 0 <= i < |Own(g, d)| ==> Requested(Own(g, d)[i]) == Requested(d))
  {
    g.SubstituteInNone(d);
    assert {} + g.VisitedAt(root, d.ip.value.name) == g.VisitedAt(root, d.ip.value.name);
    r := root.NormalizeDependency(d, g, {});
    h := Lifted(g, root, d);
    EntangledIsNoTree(g, root, d);
    if Entangled(g, root, d) {
      assert !Graph(h.kids, h.rank).Acyclic();
    } else {
      SeparateHasRank(g, root, d);
      SettlesIff(g, root, d, h);
    }
  }
}
