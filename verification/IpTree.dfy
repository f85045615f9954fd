/** The tree of IP dependencies: flattening, conflict grouping, and the in-place replacement of
    every node of one name by one chosen node. */
module IpTree {
  import opened Collections

  /** `requested` is the commit the parent asks for, `commit` the one that was resolved. */
  datatype IP = IP(name: string, requested: Option<string>, commit: string)

  /** The root has no IP of its own. Only the list of children ever changes. */
  class IPTreeNode {
    const ip: Option<IP>
    var children: seq<IPTreeNode>

    constructor (ip: Option<IP>, children: seq<IPTreeNode>)
      ensures this.ip == ip && this.children == children
    {
      this.ip := ip;
      this.children := children;
    }

    predicate Named(m: string) { ip.Some? && ip.value.name == m }

    ghost function Key(): Option<string> { if ip.None? then None else Some(ip.value.name) }

    /** Replaces, in place, every node below this one that is named like the dependency. The set s holds the nodes of
        the tree g that have been dealt with before; names may depend on each other in any way. */
    method NormalizeDependency(dependency: IPTreeNode, ghost g: Graph, ghost s: set<IPTreeNode>) returns (r: IPTreeNode)
      requires g.Acyclic() && this in g.kids && dependency in g.kids && dependency.ip.Some?
      requires g.In(s, dependency).IsSnapshot()
      modifies g.kids.Keys
      ensures r == Chosen(this, dependency)
      ensures g.In(s + g.VisitedAt(this, dependency.ip.value.name), dependency).IsSnapshot()
      decreases if Named(dependency.ip.value.name) then 0 else g.rank(this) + 1, 2
    {
      if Named(dependency.ip.value.name) {
        assert s + {} == s;
        return dependency;
      }
      var normalized := NormalizeChildren(dependency, g, s);
      children := normalized;
      g.NoChildYet(s, this, dependency);
      g.SelfToo(s, this, dependency);
      r := this;
    }

    /** The loop over the children: what is to take their place, each subtree normalized. */
    method NormalizeChildren(dependency: IPTreeNode, ghost g: Graph, ghost s: set<IPTreeNode>)
      returns (normalized: seq<IPTreeNode>)
      requires g.Acyclic() && this in g.kids && dependency in g.kids && dependency.ip.Some?
      requires !Named(dependency.ip.value.name) && g.In(s, dependency).IsSnapshot()
      modifies g.kids.Keys
      ensures normalized == Subst(g.kids[this], dependency)
      ensures g.Before(s, this, |g.kids[this]|, dependency).IsSnapshot()
      decreases g.rank(this) + 1, 1
    {
      normalized := [];
      var cs := children;
      ghost var kids := g.kids[this];
      g.ChildrenOf(s, this, dependency);
      g.NoChildYet(s, this, dependency);
      for i := 0 to |cs|
        invariant normalized == Subst(kids[..i], dependency)
        invariant g.Before(s, this, i, dependency).IsSnapshot()
      {
        var child := NormalizeChild(dependency, cs, i, g, s);
        normalized := normalized + [child];
      }
      assert kids[..|cs|] == kids;
    }

    /** The child at position i of the list that the loop walks, the ones before it being done. */
    method NormalizeChild(dependency: IPTreeNode, cs: seq<IPTreeNode>, i: nat, ghost g: Graph, ghost s: set<IPTreeNode>)
      returns (child: IPTreeNode)
      requires g.Acyclic() && this in g.kids && dependency in g.kids && dependency.ip.Some?
      requires g.ChildList(this, cs, dependency) && i < |cs| == |g.kids[this]|
      requires g.Before(s, this, i, dependency).IsSnapshot()
      modifies g.kids.Keys
      ensures Subst(g.kids[this][..i + 1], dependency) == Subst(g.kids[this][..i], dependency) + [child]
      ensures g.Before(s, this, i + 1, dependency).IsSnapshot()
      decreases g.rank(this) + 1, 0
    {
      g.NextChild(s, this, cs, i, dependency);
      SubstNext(g.kids[this], i, dependency);
      child := cs[i].NormalizeDependency(dependency, g,
        s + g.Visited(g.rank(this), g.kids[this][..i], dependency.ip.value.name));
    }

    /** All descendants, children before their parent. */
    method FlattenizeChildren(ghost g: Graph) returns (flat: seq<IPTreeNode>)
      requires g.Acyclic() && this in g.kids && g.IsSnapshot()
      ensures flat == g.Flat(this)
      decreases g.rank(this)
    {
      flat := [];
      for i := 0 to |children|
        invariant flat == g.FlatKids(g.rank(this), children[..i])
      {
        var c := children[i];
        var below := c.FlattenizeChildren(g);
        flat := flat + below;
        flat := flat + [c];
        assert children[..i + 1][..i] == children[..i];
      }
      assert children[..|children|] == children;
    }
  }

  ghost predicate SameName(x: IPTreeNode, y: IPTreeNode) { x.Key() == y.Key() }

  function Chosen(c: IPTreeNode, d: IPTreeNode): IPTreeNode
    requires d.ip.Some?
  {
    if c.Named(d.ip.value.name) then d else c
  }

  function Subst(cs: seq<IPTreeNode>, d: IPTreeNode): (r: seq<IPTreeNode>)
    requires d.ip.Some?
    ensures |r| == |cs|
  {
    if cs == [] then [] else Subst(cs[..|cs| - 1], d) + [Chosen(cs[|cs| - 1], d)]
  }

  lemma {:induction false} SubstAt(cs: seq<IPTreeNode>, d: IPTreeNode, i: nat)
    requires d.ip.Some? && i < |cs|
    ensures Subst(cs, d)[i] == Chosen(cs[i], d)
    ensures Subst(cs, d)[..i] == Subst(cs[..i], d)
    decreases |cs|
  {
    if i < |cs| - 1 {
      SubstAt(cs[..|cs| - 1], d, i);
      assert cs[..|cs| - 1][..i] == cs[..i];
    }
  }

  /** The child at position i, whether the list has been substituted before or not. */
  lemma {:induction false} SubstitutedChild(kids: seq<IPTreeNode>, d: IPTreeNode, cs: seq<IPTreeNode>, i: nat)
    requires d.ip.Some? && i < |kids| && (cs == kids || cs == Subst(kids, d))
    ensures |cs| == |kids| && Chosen(cs[i], d) == Chosen(kids[i], d)
    ensures if kids[i].Named(d.ip.value.name) then cs[i].Named(d.ip.value.name) && cs[i] in {kids[i], d}
            else cs[i] == kids[i]
  {
    SubstAt(kids, d, i);
  }

  /** The same number of nodes, each of the same name. */
  ghost predicate NamesMatch(s: seq<IPTreeNode>, t: seq<IPTreeNode>) {
    |s| == |t| && forall i :: 0 <= i < |s| ==> SameName(t[i], s[i])
  }

  lemma {:induction false} SubstMatches(s: seq<IPTreeNode>, cs: seq<IPTreeNode>, d: IPTreeNode)
    requires NamesMatch(s, cs) && d.ip.Some?
    ensures NamesMatch(s, Subst(cs, d))
  {
    forall i | 0 <= i < |s| ensures SameName(Subst(cs, d)[i], s[i]) {
      SubstAt(cs, d, i);
      assert SameName(cs[i], s[i]);
    }
  }

  lemma {:induction false} SubstLength(kids: seq<IPTreeNode>, d: IPTreeNode)
    requires d.ip.Some?
    ensures |Subst(kids, d)| == |kids|
  {
  }

  lemma {:induction false} SubstNext(cs: seq<IPTreeNode>, i: nat, d: IPTreeNode)
    requires i < |cs| && d.ip.Some?
    ensures Subst(cs[..i + 1], d) == Subst(cs[..i], d) + [Chosen(cs[i], d)]
  {
    assert cs[..i + 1][..i] == cs[..i];
  }

  lemma {:induction false} InFront(s: seq<IPTreeNode>, t: seq<IPTreeNode>, k: nat, own: seq<IPTreeNode>)
    requires |own| <= k < |s| && s[k - |own|..k] == own
    ensures (s + t)[k] == s[k] && (s + t)[k - |own|..k] == own
  {
  }

  lemma {:induction false} InMiddle(s: seq<IPTreeNode>, t: seq<IPTreeNode>, u: seq<IPTreeNode>, j: nat,
                                    own: seq<IPTreeNode>)
    requires |own| <= j <= |t| && t[j - |own|..j] == own && |u| == 1
    ensures (s + t + u)[|s| + j] == if j < |t| then t[j] else u[0]
    ensures (s + t + u)[|s| + j - |own|..|s| + j] == own
  {
  }

  /** The children of every node at one moment, and a rank that falls from every node to its children. */
  datatype Graph = Graph(kids: map<IPTreeNode, seq<IPTreeNode>>, rank: IPTreeNode -> nat) {

    ghost predicate IsSnapshot()
      reads kids.Keys
    {
      forall x :: x in kids ==> x.children == kids[x]
    }

    ghost predicate Below(b: nat, cs: seq<IPTreeNode>) {
      forall i :: 0 <= i < |cs| ==> cs[i] in kids && cs[i].ip.Some? && rank(cs[i]) < b
    }

    ghost predicate Acyclic() {
      forall x :: x in kids ==> Below(rank(x), kids[x])
    }

    /** Names depend on each other without a cycle: the rank of a node is a rank of its name. */
    ghost predicate RankedByName() {
      forall x, y {:trigger SameName(x, y)} :: x in kids && y in kids && SameName(x, y) ==> rank(x) == rank(y)
    }

    ghost predicate Ranked() { Acyclic() && RankedByName() }

    /** No node named m is of a rank below b. */
    ghost predicate AtLeast(b: nat, m: string) {
      forall x :: x in kids && x.Named(m) ==> b <= rank(x)
    }

    // ---- Flattening ----

    ghost function FlatKids(b: nat, cs: seq<IPTreeNode>): seq<IPTreeNode>
      requires Acyclic() && Below(b, cs)
      decreases b, |cs|
    {
      if cs == [] then []
      else
        var c := cs[|cs| - 1];
        FlatKids(b, cs[..|cs| - 1]) + FlatKids(rank(c), kids[c]) + [c]
    }

    ghost function Flat(x: IPTreeNode): seq<IPTreeNode>
      requires Acyclic() && x in kids
    {
      FlatKids(rank(x), kids[x])
    }

    /** The nodes named m in the flattening, in the same order. */
    ghost function Occ(b: nat, cs: seq<IPTreeNode>, m: string): seq<IPTreeNode>
      requires Acyclic() && Below(b, cs)
      decreases b, |cs|
    {
      if cs == [] then []
      else
        Occ(b, cs[..|cs| - 1], m) + OccAt(cs[|cs| - 1], m)
    }

    ghost function OccAt(c: IPTreeNode, m: string): seq<IPTreeNode>
      requires Acyclic() && c in kids
      decreases rank(c), |kids[c]| + 1
    {
      Occ(rank(c), kids[c], m) + if c.Named(m) then [c] else []
    }

    lemma {:induction false} OccIsFilter(b: nat, cs: seq<IPTreeNode>, m: string)
      requires Acyclic() && Below(b, cs)
      ensures Occ(b, cs, m) == Filter(FlatKids(b, cs), m)
      decreases b, |cs|
    {
      if cs != [] {
        var c := cs[|cs| - 1];
        var first, below := FlatKids(b, cs[..|cs| - 1]), FlatKids(rank(c), kids[c]);
        OccIsFilter(b, cs[..|cs| - 1], m);
        OccIsFilter(rank(c), kids[c], m);
        FilterSplit(first, below, m);
        FilterSplit(first + below, [c], m);
      }
    }

    lemma {:induction false} OccMembers(b: nat, cs: seq<IPTreeNode>, m: string)
      requires Acyclic() && Below(b, cs)
      ensures forall i :: 0 <= i < |Occ(b, cs, m)| ==> Occ(b, cs, m)[i] in kids && Occ(b, cs, m)[i].Named(m)
      decreases b, |cs|
    {
      if cs != [] {
        var c := cs[|cs| - 1];
        var first, below := Occ(b, cs[..|cs| - 1], m), Occ(rank(c), kids[c], m);
        OccMembers(b, cs[..|cs| - 1], m);
        OccMembers(rank(c), kids[c], m);
        var o := Occ(b, cs, m);
        assert o == first + (below + if c.Named(m) then [c] else []);
        forall i | 0 <= i < |o| ensures o[i] in kids && o[i].Named(m) {
          if i < |first| {
            assert o[i] == first[i];
          } else if i - |first| < |below| {
            assert o[i] == below[i - |first|];
          }
        }
      }
    }

    lemma {:induction false} FlatInGraph(b: nat, cs: seq<IPTreeNode>)
      requires Acyclic() && Below(b, cs)
      ensures Below(b, FlatKids(b, cs))
      decreases b, |cs|
    {
      if cs != [] {
        var c := cs[|cs| - 1];
        FlatInGraph(b, cs[..|cs| - 1]);
        FlatInGraph(rank(c), kids[c]);
      }
    }

    /** y is a child of x, or of a node below x. */
    ghost predicate Descends(x: IPTreeNode, y: IPTreeNode)
      requires Acyclic() && x in kids
      decreases rank(x)
    {
      exists i :: 0 <= i < |kids[x]| && (kids[x][i] == y || Descends(kids[x][i], y))
    }

    /** y is one of cs or below one of them. */
    ghost predicate FromOneOf(cs: seq<IPTreeNode>, y: IPTreeNode)
      requires Acyclic() && forall i :: 0 <= i < |cs| ==> cs[i] in kids
    {
      exists i :: 0 <= i < |cs| && (cs[i] == y || Descends(cs[i], y))
    }

    lemma {:induction false} FlatKidsIff(b: nat, cs: seq<IPTreeNode>, y: IPTreeNode)
      requires Acyclic() && Below(b, cs)
      ensures y in FlatKids(b, cs) <==> FromOneOf(cs, y)
      decreases b, |cs|
    {
      if cs != [] {
        var n := |cs| - 1;
        var c := cs[n];
        FlatKidsIff(b, cs[..n], y);
        FlatKidsIff(rank(c), kids[c], y);
        assert Descends(c, y) <==> FromOneOf(kids[c], y);
        if FromOneOf(cs[..n], y) {
          var i :| 0 <= i < n && (cs[..n][i] == y || Descends(cs[..n][i], y));
          assert cs[i] == y || Descends(cs[i], y);
        }
        if FromOneOf(cs, y) {
          var i :| 0 <= i < |cs| && (cs[i] == y || Descends(cs[i], y));
          assert i < n ==> cs[..n][i] == y || Descends(cs[..n][i], y);
        }
      }
    }

    /** The flattening holds exactly the nodes below x. */
    lemma {:induction false} FlatIff(x: IPTreeNode, y: IPTreeNode)
      requires Acyclic() && x in kids
      ensures y in Flat(x) <==> Descends(x, y)
    {
      FlatKidsIff(rank(x), kids[x], y);
      assert Descends(x, y) <==> FromOneOf(kids[x], y);
    }

    lemma {:induction false} BelowParts(b: nat, s: seq<IPTreeNode>, c: IPTreeNode, t: seq<IPTreeNode>)
      requires Below(b, s + [c] + t)
      ensures Below(b, s) && Below(b, [c]) && Below(b, t)
    {
      var cs := s + [c] + t;
      forall i | 0 <= i < |s| ensures s[i] in kids && s[i].ip.Some? && rank(s[i]) < b {
        assert cs[i] == s[i];
      }
      assert cs[|s|] == c;
      forall i | 0 <= i < |t| ensures t[i] in kids && t[i].ip.Some? && rank(t[i]) < b {
        assert cs[|s| + 1 + i] == t[i];
      }
    }

    /** The children of a node come in their order, each behind its own flattening. */
    lemma {:induction false} FlatInOrder(b: nat, s: seq<IPTreeNode>, c: IPTreeNode, t: seq<IPTreeNode>)
      requires Acyclic() && Below(b, s + [c] + t)
      ensures Below(b, s) && c in kids && Below(b, t)
      ensures FlatKids(b, s + [c] + t) == FlatKids(b, s) + (Flat(c) + [c]) + FlatKids(b, t)
      decreases |t|
    {
      var cs := s + [c] + t;
      BelowParts(b, s, c, t);
      assert [c][0] == c;
      if t == [] {
        assert cs[..|cs| - 1] == s && cs[|cs| - 1] == c;
      } else {
        var n := |t| - 1;
        assert cs[..|cs| - 1] == s + [c] + t[..n] && cs[|cs| - 1] == t[n];
        FlatInOrder(b, s, c, t[..n]);
      }
    }

    /** Every node of the flattening stands right behind its own flattening. */
    lemma {:induction false} PostOrder(b: nat, cs: seq<IPTreeNode>, k: nat)
      requires Acyclic() && Below(b, cs) && k < |FlatKids(b, cs)|
      ensures FlatKids(b, cs)[k] in kids
      ensures var own := Flat(FlatKids(b, cs)[k]); |own| <= k && FlatKids(b, cs)[k - |own|..k] == own
      decreases b, |cs|
    {
      var n := |cs| - 1;
      var c := cs[n];
      var first, below := FlatKids(b, cs[..n]), FlatKids(rank(c), kids[c]);
      if k < |first| {
        PostOrder(b, cs[..n], k);
        InFront(first, below + [c], k, Flat(first[k]));
        assert first + (below + [c]) == first + below + [c];
      } else if k < |first| + |below| {
        var j := k - |first|;
        PostOrder(rank(c), kids[c], j);
        InMiddle(first, below, [c], j, Flat(below[j]));
      } else {
        assert below[0..] == below;
        InMiddle(first, below, [c], |below|, below);
      }
    }

    /** The nodes of a name do not depend on the ranking. */
    lemma {:induction false} OccByKids(h: Graph, b: nat, hb: nat, cs: seq<IPTreeNode>, m: string)
      requires Acyclic() && h.Acyclic() && h.kids == kids && Below(b, cs) && h.Below(hb, cs)
      ensures h.Occ(hb, cs, m) == Occ(b, cs, m)
      decreases b, |cs|
    {
      if cs != [] {
        var c := cs[|cs| - 1];
        OccByKids(h, b, hb, cs[..|cs| - 1], m);
        OccByKids(h, rank(c), h.rank(c), kids[c], m);
      }
    }

    // ---- Names ----

    ghost function NamesBelow(b: nat): set<string> {
      set x | x in kids && x.ip.Some? && rank(x) < b :: x.ip.value.name
    }

    ghost function NameSet(): set<string> {
      set x | x in kids && x.ip.Some? :: x.ip.value.name
    }

    /** The same children, ranked by the number of names that rank lower. */
    ghost function Compressed(): Graph { Graph(kids, x => |NamesBelow(rank(x))|) }

    lemma {:induction false} CompressedRanked()
      requires Ranked()
      ensures Compressed().Ranked()
      ensures forall x :: x in kids && x.ip.Some? ==> Compressed().rank(x) < |NameSet()|
    {
      var h := Compressed();
      forall x, i | x in kids && 0 <= i < |kids[x]| ensures h.rank(kids[x][i]) < h.rank(x) {
        NamesGrow(kids[x][i], rank(x));
      }
      forall x | x in kids && x.ip.Some? ensures h.rank(x) < |NameSet()| {
        NamesGrow(x, rank(x) + 1);
        Smaller(NamesBelow(rank(x) + 1), NameSet());
      }
    }

    /** A node adds its own name to those that rank below it. */
    lemma {:induction false} NamesGrow(c: IPTreeNode, b: nat)
      requires Ranked() && c in kids && c.ip.Some? && rank(c) < b
      ensures |NamesBelow(rank(c))| < |NamesBelow(b)|
    {
      var m := c.ip.value.name;
      assert m in NamesBelow(b);
      assert m !in NamesBelow(rank(c)) by {
        if x :| x in kids && x.ip.Some? && rank(x) < rank(c) && x.ip.value.name == m {
          assert SameName(x, c);
        }
      }
      Smaller(NamesBelow(rank(c)), NamesBelow(b) - {m});
    }

    // ---- Replacement ----

    /** The graph in which the nodes of s have their children replaced. */
    ghost function In(s: set<IPTreeNode>, d: IPTreeNode): Graph
      requires d.ip.Some?
    {
      Graph(map x | x in kids :: if x in s then Subst(kids[x], d) else kids[x], rank)
    }

    /** The nodes reached from cs without going through a node named m. */
    ghost function Visited(b: nat, cs: seq<IPTreeNode>, m: string): set<IPTreeNode>
      requires Acyclic() && Below(b, cs)
      decreases b, |cs|
    {
      if cs == [] then {}
      else
        Visited(b, cs[..|cs| - 1], m) + VisitedAt(cs[|cs| - 1], m)
    }

    ghost function VisitedAt(c: IPTreeNode, m: string): set<IPTreeNode>
      requires Acyclic() && c in kids
      decreases rank(c), |kids[c]| + 1
    {
      if c.Named(m) then {} else {c} + Visited(rank(c), kids[c], m)
    }

    ghost function Normalize(x: IPTreeNode, d: IPTreeNode): Graph
      requires Acyclic() && x in kids && d.ip.Some?
    {
      In(VisitedAt(x, d.ip.value.name), d)
    }

    lemma {:induction false} SubstituteInNone(d: IPTreeNode)
      requires d.ip.Some?
      ensures In({}, d) == this
    {
      assert In({}, d).kids == kids;
    }

    lemma {:induction false} SubstituteAcyclic(s: set<IPTreeNode>, d: IPTreeNode)
      requires Ranked() && d.ip.Some? && d in kids
      ensures In(s, d).Ranked()
    {
      var h := In(s, d);
      forall x | x in h.kids ensures h.Below(h.rank(x), h.kids[x]) {
        BelowSubst(rank(x), kids[x], d);
      }
    }

    lemma {:induction false} BelowSubst(b: nat, cs: seq<IPTreeNode>, d: IPTreeNode)
      requires RankedByName() && Below(b, cs) && d.ip.Some? && d in kids
      ensures Below(b, Subst(cs, d))
      decreases |cs|
    {
      if cs != [] {
        BelowSubst(b, cs[..|cs| - 1], d);
        assert cs[|cs| - 1].Named(d.ip.value.name) ==> SameName(cs[|cs| - 1], d);
      }
    }

    /** Some nodes of h have had their children replaced by d, the others are as they were. */
    ghost predicate BecomesBy(h: Graph, d: IPTreeNode) {
      && Ranked() && h.Ranked() && h.rank == rank && h.kids.Keys == kids.Keys && d.ip.Some? && d in kids
      && forall x :: x in kids ==> h.kids[x] == kids[x] || h.kids[x] == Subst(kids[x], d)
    }

    lemma {:induction false} InBecomes(s: set<IPTreeNode>, d: IPTreeNode)
      requires Ranked() && d.ip.Some? && d in kids
      ensures BecomesBy(In(s, d), d)
    {
      SubstituteAcyclic(s, d);
    }

    lemma {:induction false} VisitedInGraph(b: nat, cs: seq<IPTreeNode>, m: string)
      requires Acyclic() && Below(b, cs)
      ensures Visited(b, cs, m) <= kids.Keys
      decreases b, |cs|
    {
      if cs != [] {
        var c := cs[|cs| - 1];
        VisitedInGraph(b, cs[..|cs| - 1], m);
        VisitedInGraph(rank(c), kids[c], m);
      }
    }

    lemma {:induction false} VisitedNotNamed(b: nat, cs: seq<IPTreeNode>, m: string)
      requires Acyclic() && Below(b, cs)
      ensures forall x :: x in Visited(b, cs, m) ==> !x.Named(m)
      decreases b, |cs|
    {
      if cs != [] {
        var c := cs[|cs| - 1];
        VisitedNotNamed(b, cs[..|cs| - 1], m);
        VisitedNotNamed(rank(c), kids[c], m);
      }
    }

    lemma {:induction false} VisitedNext(b: nat, cs: seq<IPTreeNode>, i: nat, m: string)
      requires Acyclic() && Below(b, cs) && i < |cs|
      ensures Visited(b, cs[..i + 1], m) == Visited(b, cs[..i], m) + VisitedAt(cs[i], m)
    {
      assert cs[..i + 1][..i] == cs[..i];
    }

    /** The tree when, after the nodes of s, the first i subtrees of x have been dealt with. */
    ghost function Before(s: set<IPTreeNode>, x: IPTreeNode, i: nat, d: IPTreeNode): Graph
      requires Acyclic() && x in kids && i <= |kids[x]| && d.ip.Some?
    {
      In(s + Visited(rank(x), kids[x][..i], d.ip.value.name), d)
    }

    lemma {:induction false} NoChildYet(s: set<IPTreeNode>, x: IPTreeNode, d: IPTreeNode)
      requires Acyclic() && x in kids && d.ip.Some?
      ensures Before(s, x, 0, d) == In(s, d)
      ensures Before(s, x, |kids[x]|, d) == In(s + Visited(rank(x), kids[x], d.ip.value.name), d)
    {
      assert kids[x][..|kids[x]|] == kids[x] && s + {} == s;
    }

    /** The list of children of x when the nodes of s have been dealt with. */
    ghost predicate ChildList(x: IPTreeNode, cs: seq<IPTreeNode>, d: IPTreeNode)
      requires x in kids && d.ip.Some?
    {
      cs == kids[x] || cs == Subst(kids[x], d)
    }

    lemma {:induction false} ChildrenOf(s: set<IPTreeNode>, x: IPTreeNode, d: IPTreeNode)
      requires x in kids && d.ip.Some?
      ensures ChildList(x, In(s, d).kids[x], d) && |In(s, d).kids[x]| == |kids[x]|
    {
      SubstLength(kids[x], d);
    }

    /** One child more: it is the same node, or one of the same name, and extends s by what its subtree visits. */
    lemma {:induction false} NextChild(s: set<IPTreeNode>, x: IPTreeNode, cs: seq<IPTreeNode>, i: nat, d: IPTreeNode)
      requires Acyclic() && x in kids && d in kids && d.ip.Some? && ChildList(x, cs, d) && i < |kids[x]|
      ensures |cs| == |kids[x]| && cs[i] in kids
      ensures !cs[i].Named(d.ip.value.name) ==> rank(cs[i]) < rank(x)
      ensures var m, b := d.ip.value.name, rank(x);
              (s + Visited(b, kids[x][..i], m)) + VisitedAt(cs[i], m) == s + Visited(b, kids[x][..i + 1], m)
      ensures Chosen(cs[i], d) == Chosen(kids[x][i], d)
    {
      SubstitutedChild(kids[x], d, cs, i);
      VisitedNext(rank(x), kids[x], i, d.ip.value.name);
    }

    /** After all children of x, x itself. */
    lemma {:induction false} SelfToo(s: set<IPTreeNode>, x: IPTreeNode, d: IPTreeNode)
      requires Acyclic() && x in kids && d.ip.Some? && !x.Named(d.ip.value.name)
      ensures In(s + VisitedAt(x, d.ip.value.name), d).kids
              == In(s + Visited(rank(x), kids[x], d.ip.value.name), d).kids[x := Subst(kids[x], d)]
    {
    }

    // ---- What a replacement does to the nodes of each name ----

    /** Below a rank there are no nodes of names of that rank or more. */
    lemma {:induction false} OccAbove(b: nat, cs: seq<IPTreeNode>, m: string)
      requires Acyclic() && Below(b, cs) && AtLeast(b, m)
      ensures Occ(b, cs, m) == []
      decreases b, |cs|
    {
      if cs != [] {
        var c := cs[|cs| - 1];
        OccAbove(b, cs[..|cs| - 1], m);
        OccAbove(rank(c), kids[c], m);
      }
    }

    lemma {:induction false} AtLeastOwnRank(x: IPTreeNode, m: string)
      requires RankedByName() && x in kids && x.Named(m)
      ensures AtLeast(rank(x), m)
    {
      forall y | y in kids && y.Named(m) ensures rank(x) <= rank(y) {
        assert SameName(x, y);
      }
    }

    lemma {:induction false} OccOfSubst(b: nat, cs: seq<IPTreeNode>, d: IPTreeNode, m: string)
      requires Ranked() && Below(b, cs) && d in kids && d.ip.Some?
      requires d.ip.value.name != m && AtLeast(rank(d), m)
      ensures Below(b, Subst(cs, d))
      ensures Occ(b, Subst(cs, d), m) == Occ(b, cs, m)
      decreases |cs|
    {
      BelowSubst(b, cs, d);
      if cs != [] {
        var n := |cs| - 1;
        var c := cs[n];
        OccOfSubst(b, cs[..n], d, m);
        if c.Named(d.ip.value.name) {
          assert SameName(c, d);
          OccAbove(rank(c), kids[c], m);
          OccAbove(rank(d), kids[d], m);
        }
      }
    }

    /** Replacing nodes of one name leaves the nodes of every other name of the same or a higher
        rank as they are, wherever the replacement is made. */
    lemma {:induction false} OccUntouched(h: Graph, d: IPTreeNode, b: nat, cs: seq<IPTreeNode>, m: string)
      requires BecomesBy(h, d) && Below(b, cs) && h.Below(b, cs)
      requires d.ip.value.name != m && AtLeast(rank(d), m)
      ensures h.Occ(b, cs, m) == Occ(b, cs, m)
      decreases b, |cs|
    {
      if cs != [] {
        var n := |cs| - 1;
        var c := cs[n];
        var k := rank(c);
        OccUntouched(h, d, b, cs[..n], m);
        assert h.Occ(k, h.kids[c], m) == Occ(k, kids[c], m) by {
          OccUntouched(h, d, k, kids[c], m);
          h.OccOfSubst(k, kids[c], d, m);
        }
      }
    }

    ghost predicate Replaced(s: set<IPTreeNode>, h: Graph, d: IPTreeNode) {
      BecomesBy(h, d) && s <= kids.Keys && forall x :: x in s ==> h.kids[x] == Subst(kids[x], d)
    }

    lemma {:induction false} OccSnoc(b: nat, cs: seq<IPTreeNode>, c: IPTreeNode, m: string)
      requires Acyclic() && Below(b, cs + [c])
      ensures Below(b, cs) && c in kids && Occ(b, cs + [c], m) == Occ(b, cs, m) + OccAt(c, m)
    {
      assert (cs + [c])[..|cs|] == cs && (cs + [c])[|cs|] == c;
      forall i | 0 <= i < |cs| ensures cs[i] in kids && cs[i].ip.Some? && rank(cs[i]) < b {
        assert (cs + [c])[i] == cs[i];
      }
    }

    /** Where the traversal has been everywhere, only the chosen node is left under its name. */
    lemma {:induction false} OccNormalized(s: set<IPTreeNode>, h: Graph, d: IPTreeNode, b: nat, cs: seq<IPTreeNode>)
      requires Replaced(s, h, d) && Below(b, cs) && Visited(b, cs, d.ip.value.name) <= s
      ensures h.Below(b, Subst(cs, d))
      ensures h.Occ(b, Subst(cs, d), d.ip.value.name) == Copies(d, |Occ(b, cs, d.ip.value.name)|)
      decreases b, |cs|
    {
      BelowSubst(b, cs, d);
      if cs != [] {
        var n, m := |cs| - 1, d.ip.value.name;
        var c := cs[n];
        var front := Subst(cs[..n], d);
        OccNormalized(s, h, d, b, cs[..n]);
        OccNormalizedAt(s, h, d, c);
        h.OccSnoc(b, front, Chosen(c, d), m);
        CopiesAdd(d, |Occ(b, cs[..n], m)|, |OccAt(c, m)|);
      }
    }

    lemma {:induction false} OccNormalizedAt(s: set<IPTreeNode>, h: Graph, d: IPTreeNode, c: IPTreeNode)
      requires Replaced(s, h, d) && c in kids && c.ip.Some? && VisitedAt(c, d.ip.value.name) <= s
      ensures h.OccAt(Chosen(c, d), d.ip.value.name)
              == Copies(d, |OccAt(c, d.ip.value.name)|)
      decreases rank(c), |kids[c]| + 1
    {
      var k, m := rank(c), d.ip.value.name;
      if c.Named(m) {
        AtLeastOwnRank(c, m);
        h.AtLeastOwnRank(d, m);
        OccAbove(k, kids[c], m);
        h.OccAbove(rank(d), h.kids[d], m);
      } else {
        OccNormalized(s, h, d, k, kids[c]);
      }
    }

    /** The effect of one replacement from the root. */
    lemma {:induction false} NormalizeEffect(root: IPTreeNode, d: IPTreeNode)
      requires Ranked() && root in kids && root.ip.None? && d in kids && d.ip.Some?
      ensures var h := Normalize(root, d);
              h.Ranked() && h.kids.Keys == kids.Keys && h.rank == rank
      ensures var h := Normalize(root, d);
              forall m :: m != d.ip.value.name && AtLeast(rank(d), m) ==>
                h.AtRoot(root, m) == AtRoot(root, m)
      ensures Normalize(root, d).AtRoot(root, d.ip.value.name) == Copies(d, |AtRoot(root, d.ip.value.name)|)
    {
      var b, cs, n := rank(root), kids[root], d.ip.value.name;
      var s := {root} + Visited(b, cs, n);
      InBecomes(s, d);
      VisitedInGraph(b, cs, n);
      OccNormalized(s, In(s, d), d, b, cs);
      forall m | m != n && AtLeast(rank(d), m)
        ensures Normalize(root, d).AtRoot(root, m) == AtRoot(root, m)
      {
        OccUntouched(In(s, d), d, b, cs, m);
        In(s, d).OccOfSubst(b, cs, d, m);
      }
    }

    /** The nodes named m anywhere below the root. */
    ghost function AtRoot(root: IPTreeNode, m: string): seq<IPTreeNode>
      requires Acyclic() && root in kids
    {
      Occ(rank(root), kids[root], m)
    }
  }

  lemma {:induction false} Smaller<T>(a: set<T>, b: set<T>)
    requires a <= b
    ensures |a| <= |b|
  {
    if a != {} {
      var x :| x in a;
      Smaller(a - {x}, b - {x});
    }
  }

  ghost function Copies(d: IPTreeNode, n: nat): seq<IPTreeNode> { seq(n, _ => d) }

  lemma {:induction false} CopiesAdd(d: IPTreeNode, n: nat, m: nat)
    ensures Copies(d, n) + Copies(d, m) == Copies(d, n + m)
  {
  }

  ghost function Filter(s: seq<IPTreeNode>, m: string): seq<IPTreeNode> {
    if s == [] then []
    else if s[|s| - 1].Named(m) then Filter(s[..|s| - 1], m) + [s[|s| - 1]]
    else Filter(s[..|s| - 1], m)
  }

  lemma {:induction false} FilterSplit(s: seq<IPTreeNode>, t: seq<IPTreeNode>, m: string)
    ensures Filter(s + t, m) == Filter(s, m) + Filter(t, m)
    decreases |t|
  {
    if t == [] {
      assert s + t == s;
    } else {
      var n := |t| - 1;
      assert (s + t)[..|s + t| - 1] == s + t[..n];
      FilterSplit(s, t[..n], m);
    }
  }
}
