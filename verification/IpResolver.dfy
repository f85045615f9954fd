/** Conflict resolution over the whole dependency tree: rounds of replacements until nothing that
    semantic versioning can decide is left, then one node per name. */
module IpResolver {
  import opened Collections
  import opened IpConflicts
  import opened IpSemver
  import opened IpTree
  import opened Semver

  /** Nothing to do for the name m: no conflict, or one that versions cannot decide. */
  ghost predicate Quiet(parse: Parser, g: Graph, root: IPTreeNode, m: string)
    requires g.Acyclic() && root in g.kids
  {
    var list := FirstPerCommit(g.AtRoot(root, m));
    |list| <= 1 || Resolve(parse, list).None?
  }

  ghost predicate QuietFrom(parse: Parser, g: Graph, root: IPTreeNode, b: nat)
    requires g.Acyclic() && root in g.kids
  {
    forall m :: g.AtLeast(b, m) ==> Quiet(parse, g, root, m)
  }

  /** Versions can still decide some name. */
  ghost predicate Undecided(parse: Parser, g: Graph, root: IPTreeNode)
    requires g.Acyclic() && root in g.kids
  {
    exists m :: !Quiet(parse, g, root, m)
  }

  lemma {:induction false} FlatIsProper(g: Graph, root: IPTreeNode)
    requires g.Acyclic() && root in g.kids
    ensures Proper(g.Flat(root))
  {
    g.FlatInGraph(g.rank(root), g.kids[root]);
  }

  /** The names of the IPs of a tree, in the order of the flattening. */
  ghost function NamesOf(g: Graph, root: IPTreeNode): seq<string>
    requires g.Acyclic() && root in g.kids
  {
    FlatIsProper(g, root);
    Names(g.Flat(root))
  }

  ghost predicate AllQuiet(parse: Parser, g: Graph, root: IPTreeNode, names: seq<string>)
    requires g.Acyclic() && root in g.kids
  {
    forall i :: 0 <= i < |names| ==> Quiet(parse, g, root, names[i])
  }

  lemma {:induction false} AllQuietNext(parse: Parser, g: Graph, root: IPTreeNode, names: seq<string>, i: nat)
    requires g.Acyclic() && root in g.kids && i < |names|
    ensures AllQuiet(parse, g, root, names[..i + 1])
            <==> AllQuiet(parse, g, root, names[..i]) && Quiet(parse, g, root, names[i])
  {
    if AllQuiet(parse, g, root, names[..i + 1]) {
      assert names[..i + 1][i] == names[i];
      forall j | 0 <= j < i ensures Quiet(parse, g, root, names[..i][j]) {
        assert names[..i][j] == names[..i + 1][j];
      }
    }
  }

  /** One conflict of the list that was drawn up for g, when the tree has come to h: if versions decide it, the node
      they choose takes the place of the others. */
  ghost predicate Step(parse: Parser, g: Graph, root: IPTreeNode, m: string, h: Graph, next: Graph)
    requires g.Acyclic() && root in g.kids
  {
    h.Acyclic() && root in h.kids && h.kids.Keys == g.kids.Keys
    && if Quiet(parse, g, root, m) then next == h
       else
         var d := Resolve(parse, FirstPerCommit(g.AtRoot(root, m))).value;
         d.ip.Some? && next.kids == h.Normalize(root, d).kids
  }

  /** The trees that a round which begins in g goes through, one more for each name. Names may depend on each other in
      any way, as long as every replacement starts from a tree. */
  ghost predicate Course(parse: Parser, g: Graph, root: IPTreeNode, names: seq<string>, graphs: seq<Graph>)
    requires g.Acyclic() && root in g.kids
  {
    |graphs| == |names| + 1 && graphs[0] == g
    && forall i :: 0 <= i < |names| ==> Step(parse, g, root, names[i], graphs[i], graphs[i + 1])
  }

  lemma {:induction false} CourseNext(parse: Parser, g: Graph, root: IPTreeNode, names: seq<string>, m: string,
                                      graphs: seq<Graph>, next: Graph)
    requires g.Acyclic() && root in g.kids && Course(parse, g, root, names, graphs)
    requires Step(parse, g, root, m, graphs[|names|], next)
    ensures Course(parse, g, root, names + [m], graphs + [next])
  {
    var longer := graphs + [next];
    forall i | 0 <= i < |names + [m]| ensures Step(parse, g, root, (names + [m])[i], longer[i], longer[i + 1]) {
      if i < |names| {
        assert Step(parse, g, root, names[i], graphs[i], graphs[i + 1]);
      }
    }
  }

  /** Where nothing can be decided, nothing changes. */
  lemma {:induction false} QuietCourse(parse: Parser, g: Graph, root: IPTreeNode, names: seq<string>,
                                       graphs: seq<Graph>)
    requires g.Acyclic() && root in g.kids && Course(parse, g, root, names, graphs)
    requires AllQuiet(parse, g, root, names)
    ensures graphs[|names|] == g
  {
    for i := 0 to |names|
      invariant graphs[i] == g
    {
      assert Step(parse, g, root, names[i], graphs[i], graphs[i + 1]);
    }
  }

  function Before(b: nat): nat { if b > 0 then b - 1 else 0 }

  /** A round that began in g and has dealt with the names in `done` is now in h: names of the
      highest rank that was not quiet, and those above, are settled or exactly as they were. */
  ghost predicate InRound(parse: Parser, g: Graph, h: Graph, root: IPTreeNode, b: nat, done: seq<string>) {
    && g.Ranked() && h.Ranked() && h.kids.Keys == g.kids.Keys && h.rank == g.rank && root in g.kids
    && forall m :: g.AtLeast(Before(b), m) ==>
         if m in done && !Quiet(parse, g, root, m) then |FirstPerCommit(h.AtRoot(root, m))| <= 1
         else h.AtRoot(root, m) == g.AtRoot(root, m)
  }

  lemma {:induction false} CopiesCollapse(d: IPTreeNode, n: nat)
    ensures |FirstPerCommit(Copies(d, n))| <= 1
    ensures n > 0 ==> Requested(d) in Commits(Copies(d, n))
  {
    if n > 0 {
      assert Copies(d, n)[..n - 1] == Copies(d, n - 1);
      CopiesCollapse(d, n - 1);
    }
  }

  /** The node chosen for a name that is not quiet. */
  lemma {:induction false} ChosenInTree(parse: Parser, g: Graph, root: IPTreeNode, m: string)
    requires g.Acyclic() && root in g.kids && !Quiet(parse, g, root, m)
    ensures var d := Resolve(parse, FirstPerCommit(g.AtRoot(root, m))).value;
            d in g.kids && d.Named(m) && d in g.AtRoot(root, m)
  {
    var list := FirstPerCommit(g.AtRoot(root, m));
    g.OccMembers(g.rank(root), g.kids[root], m);
    var k := LastMax(Versions(parse, list));
    assert Resolve(parse, list).value == list[k];
  }

  /** Where its rank lies. */
  lemma {:induction false} ChosenNode(parse: Parser, g: Graph, root: IPTreeNode, b: nat, m: string)
    requires g.Ranked() && root in g.kids && QuietFrom(parse, g, root, b) && !Quiet(parse, g, root, m)
    ensures var d := Resolve(parse, FirstPerCommit(g.AtRoot(root, m))).value;
            d in g.kids && d.Named(m) && g.rank(d) < b
  {
    var d := Resolve(parse, FirstPerCommit(g.AtRoot(root, m))).value;
    ChosenInTree(parse, g, root, m);
    assert !g.AtLeast(b, m);
    var x :| x in g.kids && x.Named(m) && g.rank(x) < b;
    assert SameName(x, d);
  }

  /** One replacement keeps the round on track, although d was chosen before the round began. */
  lemma {:induction false} RoundStep(parse: Parser, g: Graph, h: Graph, root: IPTreeNode, b: nat,
                                     done: seq<string>, m: string)
    requires InRound(parse, g, h, root, b, done) && root.ip.None? && QuietFrom(parse, g, root, b)
    requires m !in done && !Quiet(parse, g, root, m)
    ensures b > 0
    ensures var d := Resolve(parse, FirstPerCommit(g.AtRoot(root, m))).value;
            d in g.kids && d.Named(m) && InRound(parse, g, h.Normalize(root, d), root, b, done + [m])
  {
    var d := Resolve(parse, FirstPerCommit(g.AtRoot(root, m))).value;
    ChosenNode(parse, g, root, b, m);
    h.NormalizeEffect(root, d);
    var next := h.Normalize(root, d);
    forall n | g.AtLeast(Before(b), n)
      ensures if n in done + [m] && !Quiet(parse, g, root, n) then |FirstPerCommit(next.AtRoot(root, n))| <= 1
              else next.AtRoot(root, n) == g.AtRoot(root, n)
    {
      assert h.AtLeast(h.rank(d), n);
      if n == m {
        CopiesCollapse(d, |h.AtRoot(root, m)|);
      } else {
        assert next.AtRoot(root, n) == h.AtRoot(root, n);
      }
    }
  }

  lemma {:induction false} RoundSkip(parse: Parser, g: Graph, h: Graph, root: IPTreeNode, b: nat,
                                     done: seq<string>, m: string)
    requires InRound(parse, g, h, root, b, done) && Quiet(parse, g, root, m)
    ensures InRound(parse, g, h, root, b, done + [m])
  {
    forall n | g.AtLeast(Before(b), n)
      ensures if n in done + [m] && !Quiet(parse, g, root, n) then |FirstPerCommit(h.AtRoot(root, n))| <= 1
              else h.AtRoot(root, n) == g.AtRoot(root, n)
    {
    }
  }

  /** A name that does not occur is quiet. */
  lemma {:induction false} AbsentQuiet(parse: Parser, g: Graph, root: IPTreeNode, m: string)
    requires g.Acyclic() && root in g.kids && Proper(g.Flat(root)) && m !in Names(g.Flat(root))
    ensures Quiet(parse, g, root, m)
  {
    var flat := g.Flat(root);
    NamesComplete(flat);
    FilterNone(flat, m);
    g.OccIsFilter(g.rank(root), g.kids[root], m);
  }

  lemma {:induction false} NothingAtRank(parse: Parser, g: Graph, root: IPTreeNode, n: nat)
    requires g.Acyclic() && root in g.kids && forall x :: x in g.kids && x.ip.Some? ==> g.rank(x) < n
    ensures QuietFrom(parse, g, root, n)
  {
    forall m | g.AtLeast(n, m) ensures Quiet(parse, g, root, m) {
      g.OccMembers(g.rank(root), g.kids[root], m);
    }
  }

  /** When every name has been dealt with, the quiet names reach one rank further down. */
  lemma {:induction false} RoundDone(parse: Parser, g: Graph, h: Graph, root: IPTreeNode, b: nat)
    requires g.Acyclic() && root in g.kids && Proper(g.Flat(root))
    requires InRound(parse, g, h, root, b, Names(g.Flat(root)))
    ensures QuietFrom(parse, h, root, Before(b))
    ensures forall m :: !Quiet(parse, g, root, m) ==> m in Names(g.Flat(root))
  {
    forall m | !Quiet(parse, g, root, m) ensures m in Names(g.Flat(root)) {
      if m !in Names(g.Flat(root)) {
        AbsentQuiet(parse, g, root, m);
      }
    }
    forall m | h.AtLeast(Before(b), m) ensures Quiet(parse, h, root, m) {
      assert g.AtLeast(Before(b), m);
    }
  }

  /** One name more of a round over a tree whose names are ranked. */
  lemma {:induction false} RankedStep(parse: Parser, g: Graph, h: Graph, root: IPTreeNode, b: nat, done: seq<string>,
                                      m: string) returns (next: Graph)
    requires InRound(parse, g, h, root, b, done) && root.ip.None? && QuietFrom(parse, g, root, b) && m !in done
    ensures Step(parse, g, root, m, h, next) && InRound(parse, g, next, root, b, done + [m])
    ensures !Quiet(parse, g, root, m) ==> b > 0
  {
    if Quiet(parse, g, root, m) {
      RoundSkip(parse, g, h, root, b, done, m);
      next := h;
    } else {
      RoundStep(parse, g, h, root, b, done, m);
      next := h.Normalize(root, Resolve(parse, FirstPerCommit(g.AtRoot(root, m))).value);
    }
  }

  /** If names are ranked, every round has a course: each of its trees is ranked the same way, and in the last one the
      quiet names reach one rank further down. */
  lemma {:induction false} RankedCourse(parse: Parser, g: Graph, root: IPTreeNode, b: nat) returns (graphs: seq<Graph>)
    requires g.Ranked() && root in g.kids && root.ip.None? && QuietFrom(parse, g, root, b)
    ensures Course(parse, g, root, NamesOf(g, root), graphs)
    ensures var h := graphs[|NamesOf(g, root)|];
            h.Ranked() && h.kids.Keys == g.kids.Keys && h.rank == g.rank && QuietFrom(parse, h, root, Before(b))
    ensures Undecided(parse, g, root) ==> b > 0
    ensures !Undecided(parse, g, root) ==> graphs[|NamesOf(g, root)|] == g
  {
    var names := NamesOf(g, root);
    FlatIsProper(g, root);
    NamesComplete(g.Flat(root));
    graphs := [g];
    for i := 0 to |names|
      invariant Course(parse, g, root, names[..i], graphs)
      invariant InRound(parse, g, graphs[i], root, b, names[..i])
      invariant b > 0 || AllQuiet(parse, g, root, names[..i])
    {
      assert names[..i + 1] == names[..i] + [names[i]];
      var next := RankedStep(parse, g, graphs[i], root, b, names[..i], names[i]);
      CourseNext(parse, g, root, names[..i], names[i], graphs, next);
      graphs := graphs + [next];
    }
    assert names[..|names|] == names;
    RoundDone(parse, g, graphs[|names|], root, b);
    UndecidedIff(parse, g, root);
    if !Undecided(parse, g, root) {
      QuietCourse(parse, g, root, names, graphs);
    }
  }

  lemma {:induction false} UndecidedIff(parse: Parser, g: Graph, root: IPTreeNode)
    requires g.Acyclic() && root in g.kids
    ensures Undecided(parse, g, root) <==> !AllQuiet(parse, g, root, NamesOf(g, root))
  {
    var names := NamesOf(g, root);
    FlatIsProper(g, root);
    if Undecided(parse, g, root) {
      var m :| !Quiet(parse, g, root, m);
      if m !in names {
        AbsentQuiet(parse, g, root, m);
      }
      var i :| 0 <= i < |names| && names[i] == m;
      assert !Quiet(parse, g, root, names[i]);
    }
  }

  // ---- Round after round ----

  /** The trees of one whole round. */
  ghost predicate IsRound(parse: Parser, root: IPTreeNode, graphs: seq<Graph>) {
    graphs != [] && graphs[0].Acyclic() && root in graphs[0].kids
    && Course(parse, graphs[0], root, NamesOf(graphs[0], root), graphs)
  }

  /** Rounds from the tree `first` to the tree h, each beginning with the tree that the one before has left. */
  ghost predicate Rounds(parse: Parser, root: IPTreeNode, first: Graph, rounds: seq<seq<Graph>>, h: Graph) {
    if rounds == [] then h == first
    else
      var last := rounds[|rounds| - 1];
      IsRound(parse, root, last) && h == last[|last| - 1]
      && Rounds(parse, root, first, rounds[..|rounds| - 1], last[0])
  }

  /** Versions could decide a name in the tree that round number i began with. */
  ghost predicate Reports(parse: Parser, root: IPTreeNode, rounds: seq<seq<Graph>>, i: nat)
    requires i < |rounds|
  {
    IsRound(parse, root, rounds[i]) && Undecided(parse, rounds[i][0], root)
  }

  /** Every round but the last reports a change. */
  ghost predicate UntilQuiet(parse: Parser, root: IPTreeNode, rounds: seq<seq<Graph>>) {
    rounds != [] && forall i :: 0 <= i < |rounds| ==> (Reports(parse, root, rounds, i) <==> i < |rounds| - 1)
  }

  /** Every round so far has reported a change. */
  ghost predicate AllReport(parse: Parser, root: IPTreeNode, rounds: seq<seq<Graph>>) {
    forall i :: 0 <= i < |rounds| ==> Reports(parse, root, rounds, i)
  }

  lemma {:induction false} NextRound(parse: Parser, root: IPTreeNode, first: Graph, rounds: seq<seq<Graph>>, h: Graph,
                                     graphs: seq<Graph>)
    requires Rounds(parse, root, first, rounds, h) && AllReport(parse, root, rounds)
    requires IsRound(parse, root, graphs) && graphs[0] == h
    ensures Rounds(parse, root, first, rounds + [graphs], graphs[|graphs| - 1])
    ensures if Undecided(parse, h, root) then AllReport(parse, root, rounds + [graphs])
            else UntilQuiet(parse, root, rounds + [graphs])
  {
    var more := rounds + [graphs];
    assert more[..|more| - 1] == rounds;
    forall i | 0 <= i < |rounds| ensures Reports(parse, root, more, i) {
      assert Reports(parse, root, rounds, i) && more[i] == rounds[i];
    }
  }

  /** Every list of children is as long as before, and asks for the same names. */
  ghost predicate SameNames(g: Graph, h: Graph) {
    h.kids.Keys == g.kids.Keys && forall x :: x in g.kids ==> NamesMatch(g.kids[x], h.kids[x])
  }

  lemma {:induction false} ReplacingKeepsNames(f: Graph, h: Graph, s: set<IPTreeNode>, d: IPTreeNode, next: Graph)
    requires d.ip.Some? && next.kids == h.In(s, d).kids && SameNames(f, h)
    ensures SameNames(f, next)
  {
    forall x | x in f.kids ensures NamesMatch(f.kids[x], next.kids[x]) {
      SubstMatches(f.kids[x], h.kids[x], d);
    }
  }

  lemma {:induction false} StepKeepsNames(parse: Parser, f: Graph, g: Graph, root: IPTreeNode, m: string, h: Graph,
                                          next: Graph)
    requires g.Acyclic() && root in g.kids && Step(parse, g, root, m, h, next) && SameNames(f, h)
    ensures SameNames(f, next)
  {
    if !Quiet(parse, g, root, m) {
      var d := Resolve(parse, FirstPerCommit(g.AtRoot(root, m))).value;
      ReplacingKeepsNames(f, h, h.VisitedAt(root, d.ip.value.name), d, next);
    }
  }

  lemma {:induction false} RoundKeepsNames(parse: Parser, f: Graph, root: IPTreeNode, graphs: seq<Graph>)
    requires IsRound(parse, root, graphs) && SameNames(f, graphs[0])
    ensures SameNames(f, graphs[|graphs| - 1])
  {
    var g, names := graphs[0], NamesOf(graphs[0], root);
    for i := 0 to |names|
      invariant SameNames(f, graphs[i])
    {
      assert Step(parse, g, root, names[i], graphs[i], graphs[i + 1]);
      StepKeepsNames(parse, f, g, root, names[i], graphs[i], graphs[i + 1]);
    }
  }

  /** Whatever the rounds do, no node gains or loses a dependency. */
  lemma {:induction false} RoundsKeepNames(parse: Parser, root: IPTreeNode, first: Graph, rounds: seq<seq<Graph>>,
                                           h: Graph)
    requires Rounds(parse, root, first, rounds, h)
    ensures SameNames(first, h)
    decreases |rounds|
  {
    if rounds != [] {
      var last := rounds[|rounds| - 1];
      RoundsKeepNames(parse, root, first, rounds[..|rounds| - 1], last[0]);
      RoundKeepsNames(parse, first, root, last);
    }
  }

  /** What versions can decide does not depend on the ranking. */
  lemma {:induction false} UndecidedByKids(parse: Parser, g: Graph, h: Graph, root: IPTreeNode)
    requires g.Acyclic() && h.Acyclic() && h.kids == g.kids && root in g.kids
    ensures Undecided(parse, h, root) <==> Undecided(parse, g, root)
  {
    forall m ensures Quiet(parse, h, root, m) <==> Quiet(parse, g, root, m) {
      g.OccByKids(h, g.rank(root), h.rank(root), g.kids[root], m);
    }
  }

  ghost predicate OneOf(group: seq<IPTreeNode>, ip: IP) {
    exists k :: 0 <= k < |group| && group[k].ip == Some(ip)
  }

  /** One node per name: the only one of its group, or any of them, as the user chooses. */
  method SelectNodes(keys: seq<string>, conflicts: map<string, seq<IPTreeNode>>) returns (newIps: seq<IP>)
    requires forall m :: m in keys ==> m in conflicts && conflicts[m] != [] && Proper(conflicts[m])
    ensures |newIps| == |keys|
    ensures forall i :: 0 <= i < |keys| ==> OneOf(conflicts[keys[i]], newIps[i])
  {
    newIps := [];
    for i := 0 to |keys|
      invariant |newIps| == i
      invariant forall j :: 0 <= j < i ==>
                  OneOf(conflicts[keys[j]], newIps[j])
    {
      var c := conflicts[keys[i]];
      var choice := 0;
      if |c| != 1 {
        choice :| 0 <= choice < |c|;
      }
      assert OneOf(c, c[choice].ip.value);
      newIps := newIps + [c[choice].ip.value];
    }
  }

  /** newIps[i] is the IP of one of the nodes of the i-th name. */
  ghost predicate Selected(g: Graph, root: IPTreeNode, newIps: seq<IP>)
    requires g.Acyclic() && root in g.kids
  {
    Proper(g.Flat(root)) && |newIps| == |NamesOf(g, root)|
    && forall i :: 0 <= i < |newIps| ==>
         newIps[i].name == NamesOf(g, root)[i]
         && OneOf(FirstPerCommit(g.AtRoot(root, newIps[i].name)), newIps[i])
  }

  lemma {:induction false} GroupsAreProper(g: Graph, root: IPTreeNode, m: string)
    requires g.Acyclic() && root in g.kids
    ensures forall k :: 0 <= k < |FirstPerCommit(g.AtRoot(root, m))| ==>
              FirstPerCommit(g.AtRoot(root, m))[k].Named(m)
  {
    var c := FirstPerCommit(g.AtRoot(root, m));
    g.OccMembers(g.rank(root), g.kids[root], m);
    forall k | 0 <= k < |c| ensures c[k].Named(m) {
      assert c[k] in g.AtRoot(root, m);
    }
  }

  /** A tree that is one chain root, a, b, e, in which a and e are different versions of the IP m. */
  ghost predicate Chain(parse: Parser, g: Graph, root: IPTreeNode, a: IPTreeNode, b: IPTreeNode, e: IPTreeNode,
                        m: string) {
    && root.ip.None? && a.Named(m) && b.ip.Some? && !b.Named(m) && e.Named(m)
    && g.kids.Keys == {root, a, b, e} && a != e
    && g.kids[root] == [a] && g.kids[a] == [b] && g.kids[b] == [e] && g.kids[e] == []
    && g.rank(root) == 3 && g.rank(a) == 2 && g.rank(b) == 1 && g.rank(e) == 0
    && Requested(a) != Requested(e)
  }

  /** a is a greater version than e, and compatible with it. */
  ghost predicate GreaterAbove(parse: Parser, a: IPTreeNode, e: IPTreeNode) {
    VersionOf(parse, a).Some? && VersionOf(parse, e).Some?
    && var v, w := VersionOf(parse, a).value, VersionOf(parse, e).value;
       SameClass(v, w) && !Premature(v) && !Premature(w) && Less(w, v)
  }

  lemma {:induction false} ChainConflict(parse: Parser, g: Graph, root: IPTreeNode, a: IPTreeNode, b: IPTreeNode,
                                         e: IPTreeNode, m: string)
    requires Chain(parse, g, root, a, b, e, m)
    ensures g.Acyclic() && g.AtRoot(root, m) == [e, a]
  {
    assert [e][..0] == [] && [b][..0] == [] && [a][..0] == [];
    assert g.OccAt(e, m) == [e];
    assert g.Occ(1, [e], m) == [e];
    assert g.OccAt(b, m) == [e];
    assert g.Occ(2, [b], m) == [e];
    assert g.OccAt(a, m) == [e, a];
    assert g.Occ(3, [a], m) == g.Occ(3, [], m) + g.OccAt(a, m);
  }

  lemma {:induction false} ChainUnchanged(parse: Parser, g: Graph, root: IPTreeNode, a: IPTreeNode, b: IPTreeNode,
                                          e: IPTreeNode, m: string)
    requires Chain(parse, g, root, a, b, e, m)
    ensures g.Acyclic() && g.Normalize(root, a) == g
  {
    assert [a][..0] == [];
    assert g.VisitedAt(a, m) == {};
    assert g.Visited(3, [a], m) == g.Visited(3, [], m) + g.VisitedAt(a, m) == {};
    assert g.VisitedAt(root, m) == {root};
    assert Subst([a], a) == [a];
    assert g.Normalize(root, a).kids == g.kids;
  }

  lemma {:induction false} FirstOfTwo(x: IPTreeNode, y: IPTreeNode)
    requires Requested(x) != Requested(y)
    ensures FirstPerCommit([x, y]) == [x, y]
  {
    assert [x, y][..1] == [x] && [x][..0] == [];
    assert Commits([x]) == {Requested(x)};
    assert FirstPerCommit([x]) == [x];
  }

  lemma {:induction false} LastOfTwo(vs: seq<Version>)
    requires |vs| == 2 && SameClass(vs[0], vs[1]) && !Premature(vs[0]) && !Premature(vs[1]) && Less(vs[0], vs[1])
    ensures AllMeet(vs) && LastMax(vs) == 1
  {
    AllMeetIff(vs);
    LessIsTotalOrder(vs[0], vs[1], vs[0]);
  }

  lemma {:induction false} GreaterOfTwo(parse: Parser, e: IPTreeNode, a: IPTreeNode)
    requires GreaterAbove(parse, a, e)
    ensures Resolve(parse, [e, a]) == Some(a)
  {
    assert AllVersions(parse, [e, a]);
    LastOfTwo(Versions(parse, [e, a]));
  }

  /** Why names must not depend on themselves. If the greatest version of a name depends, through
      another IP, on a lower compatible version of the same name, then it is chosen, replacing
      changes nothing, and the conflict is still there: every further round does the same. */
  lemma {:induction false} NameCycleNeverSettles(parse: Parser, g: Graph, root: IPTreeNode, a: IPTreeNode,
                                                 b: IPTreeNode, e: IPTreeNode, m: string)
    requires Chain(parse, g, root, a, b, e, m) && GreaterAbove(parse, a, e)
    ensures g.Acyclic() && !g.RankedByName()
    ensures FirstPerCommit(g.AtRoot(root, m)) == [e, a] && Resolve(parse, [e, a]) == Some(a)
    ensures !Quiet(parse, g, root, m) && g.Normalize(root, a) == g
  {
    ChainConflict(parse, g, root, a, b, e, m);
    ChainUnchanged(parse, g, root, a, b, e, m);
    FirstOfTwo(e, a);
    GreaterOfTwo(parse, e, a);
    assert SameName(a, e);
  }

  /** In the chain no other name has two nodes. */
  lemma {:induction false} ChainOther(parse: Parser, g: Graph, root: IPTreeNode, a: IPTreeNode, b: IPTreeNode,
                                      e: IPTreeNode, m: string, n: string)
    requires Chain(parse, g, root, a, b, e, m) && n != m
    ensures g.Acyclic() && |g.AtRoot(root, n)| <= 1
  {
    var own := if b.Named(n) then [b] else [];
    assert [e][..0] == [] && [b][..0] == [] && [a][..0] == [];
    assert g.OccAt(e, n) == [];
    assert g.Occ(1, [e], n) == [];
    assert g.OccAt(b, n) == own;
    assert g.Occ(2, [b], n) == own;
    assert g.OccAt(a, n) == own;
    assert g.Occ(3, [a], n) == g.Occ(3, [], n) + g.OccAt(a, n) == own;
  }

  lemma {:induction false} OneNodeQuiet(parse: Parser, g: Graph, root: IPTreeNode, n: string)
    requires g.Acyclic() && root in g.kids && |g.AtRoot(root, n)| <= 1
    ensures Quiet(parse, g, root, n)
  {
    var s := g.AtRoot(root, n);
    assert |s| == 1 ==> FirstPerCommit(s[..0]) == [];
    assert |FirstPerCommit(s)| <= 1;
  }

  /** A round over the chain stands still. */
  lemma {:induction false} ChainCourse(parse: Parser, g: Graph, root: IPTreeNode, a: IPTreeNode, b: IPTreeNode,
                                       e: IPTreeNode, m: string) returns (graphs: seq<Graph>)
    requires Chain(parse, g, root, a, b, e, m) && GreaterAbove(parse, a, e)
    ensures g.Acyclic() && Course(parse, g, root, NamesOf(g, root), graphs)
    ensures graphs[|NamesOf(g, root)|] == g
  {
    NameCycleNeverSettles(parse, g, root, a, b, e, m);
    var names := NamesOf(g, root);
    graphs := seq(|names| + 1, _ => g);
    forall i | 0 <= i < |names| ensures Step(parse, g, root, names[i], graphs[i], graphs[i + 1]) {
      ChainStep(parse, g, root, a, b, e, m, names[i]);
    }
  }

  lemma {:induction false} ChainStep(parse: Parser, g: Graph, root: IPTreeNode, a: IPTreeNode, b: IPTreeNode,
                                     e: IPTreeNode, m: string, n: string)
    requires Chain(parse, g, root, a, b, e, m) && GreaterAbove(parse, a, e)
    ensures g.Acyclic() && Step(parse, g, root, n, g, g)
  {
    NameCycleNeverSettles(parse, g, root, a, b, e, m);
    if n != m {
      ChainOther(parse, g, root, a, b, e, m, n);
      OneNodeQuiet(parse, g, root, n);
    }
  }

  class IPDatabase {
    var ipTree: IPTreeNode

    constructor (ipTree: IPTreeNode)
      ensures this.ipTree == ipTree
    {
      this.ipTree := ipTree;
    }

    /** The root has no name, so it stays the root. */
    method Replace(d: IPTreeNode, ghost h: Graph)
      requires h.Acyclic() && h.IsSnapshot() && ipTree in h.kids && ipTree.ip.None? && d in h.kids && d.ip.Some?
      modifies this, h.kids.Keys
      ensures ipTree == old(ipTree) && h.Normalize(ipTree, d).IsSnapshot()
    {
      h.SubstituteInNone(d);
      assert {} + h.VisitedAt(ipTree, d.ip.value.name) == h.VisitedAt(ipTree, d.ip.value.name);
      ipTree := ipTree.NormalizeDependency(d, h, {});
    }

    /** One conflict of the list drawn up for g, when the tree has come to h. */
    method ResolveConflict(parse: Parser, conflict: seq<IPTreeNode>, ghost g: Graph, ghost h: Graph, ghost next: Graph,
                           ghost m: string)
      returns (updated: bool)
      requires g.Acyclic() && ipTree in g.kids && ipTree.ip.None? && h.IsSnapshot()
      requires Step(parse, g, ipTree, m, h, next)
      requires conflict == FirstPerCommit(g.AtRoot(ipTree, m)) != []
      modifies this, g.kids.Keys
      ensures ipTree == old(ipTree) && next.IsSnapshot()
      ensures updated <==> !Quiet(parse, g, ipTree, m)
    {
      var autoResolved: Option<IPTreeNode> := None;
      if |conflict| > 1 {
        autoResolved := TrySemverResolveConflict(parse, conflict);
      }
      updated := autoResolved.Some?;
      if autoResolved.Some? {
        ChosenInTree(parse, g, ipTree, m);
        Replace(autoResolved.value, h);
      }
    }

    /** The conflicts of one list, which goes stale while the tree is rewritten. */
    method ResolveAll(parse: Parser, keys: seq<string>, conflicts: map<string, seq<IPTreeNode>>, ghost g: Graph,
                      ghost graphs: seq<Graph>)
      returns (updated: bool)
      requires g.Acyclic() && g.IsSnapshot() && ipTree in g.kids && ipTree.ip.None?
      requires Course(parse, g, ipTree, keys, graphs)
      requires forall m :: m in keys ==> m in conflicts && conflicts[m] == FirstPerCommit(g.AtRoot(ipTree, m)) != []
      modifies this, g.kids.Keys
      ensures ipTree == old(ipTree) && graphs[|keys|].IsSnapshot()
      ensures updated <==> !AllQuiet(parse, g, ipTree, keys)
    {
      ghost var root := ipTree;
      updated := false;
      for i := 0 to |keys|
        invariant ipTree == root && graphs[i].IsSnapshot() && (updated <==> !AllQuiet(parse, g, root, keys[..i]))
      {
        AllQuietNext(parse, g, root, keys, i);
        assert Step(parse, g, root, keys[i], graphs[i], graphs[i + 1]);
        var resolved := ResolveConflict(parse, conflicts[keys[i]], g, graphs[i], graphs[i + 1], keys[i]);
        updated := updated || resolved;
      }
      assert keys[..|keys|] == keys;
    }

    /** One round, over any tree whose course stays a tree. */
    method Round(parse: Parser, ghost g: Graph, ghost graphs: seq<Graph>) returns (updated: bool)
      requires g.Acyclic() && g.IsSnapshot() && ipTree in g.kids && ipTree.ip.None?
      requires Course(parse, g, ipTree, NamesOf(g, ipTree), graphs)
      modifies this, g.kids.Keys
      ensures ipTree == old(ipTree) && graphs[|graphs| - 1].IsSnapshot()
      ensures updated <==> Undecided(parse, g, ipTree)
    {
      var keys, conflicts := GetConflicts(ipTree, g);
      UndecidedIff(parse, g, ipTree);
      updated := ResolveAll(parse, keys, conflicts, g, graphs);
    }

    /** One round over the chain of NameCycleNeverSettles: it reports a change and leaves the tree as it was. */
    method RoundOfChain(parse: Parser, ghost g: Graph, ghost a: IPTreeNode, ghost b: IPTreeNode, ghost e: IPTreeNode,
                        ghost m: string)
      returns (updated: bool)
      requires Chain(parse, g, ipTree, a, b, e, m) && GreaterAbove(parse, a, e) && g.IsSnapshot()
      modifies this, g.kids.Keys
      ensures updated && ipTree == old(ipTree) && g.IsSnapshot()
    {
      NameCycleNeverSettles(parse, g, ipTree, a, b, e, m);
      ghost var graphs := ChainCourse(parse, g, ipTree, a, b, e, m);
      updated := Round(parse, g, graphs);
    }

    /** The fixpoint loop. It stops after at most one round more than there are names, and leaves nothing that versions
        could still decide. The final tree comes from the first one by whole rounds, of which all but the last report a
        change; so if there is nothing to decide at the beginning, nothing changes. */
    method ResolveBySemver(parse: Parser, ghost g: Graph) returns (ghost h: Graph, ghost rounds: seq<seq<Graph>>)
      requires g.Ranked() && g.IsSnapshot() && ipTree in g.kids && ipTree.ip.None?
      modifies this, g.kids.Keys
      ensures ipTree == old(ipTree) && h.Ranked() && h.IsSnapshot() && h.kids.Keys == g.kids.Keys
      ensures |rounds| <= |g.NameSet()| + 1
      ensures Rounds(parse, ipTree, g.Compressed(), rounds, h) && UntilQuiet(parse, ipTree, rounds)
      ensures SameNames(g, h) && (!Undecided(parse, g, ipTree) ==> h.kids == g.kids)
      ensures forall m :: Quiet(parse, h, ipTree, m)
    {
      ghost var root, n, first := ipTree, |g.NameSet()|, g.Compressed();
      g.CompressedRanked();
      UndecidedByKids(parse, g, first, root);
      h := first;
      ghost var b: nat := n;
      NothingAtRank(parse, h, root, n);
      rounds := [];
      var ipTreeUpdated := true;
      while ipTreeUpdated
        invariant ipTree == root && h.Ranked() && h.IsSnapshot() && h.kids.Keys == g.kids.Keys
        invariant QuietFrom(parse, h, root, b)
        invariant |rounds| + b == n + if ipTreeUpdated then 0 else 1
        invariant Rounds(parse, root, first, rounds, h)
        invariant if ipTreeUpdated then AllReport(parse, root, rounds) else UntilQuiet(parse, root, rounds)
        invariant !Undecided(parse, first, root) ==> h == first
        invariant !ipTreeUpdated ==> forall m :: Quiet(parse, h, root, m)
        decreases b, ipTreeUpdated
      {
        ghost var graphs := RankedCourse(parse, h, root, b);
        NextRound(parse, root, first, rounds, h, graphs);
        ipTreeUpdated := Round(parse, h, graphs);
        h := graphs[|graphs| - 1];
        rounds := rounds + [graphs];
        if ipTreeUpdated {
          b := b - 1;
        }
      }
      RoundsKeepNames(parse, root, first, rounds, h);
    }

    /** One IP per name that is left, in the order of the flattening. */
    method ResolveDepsConflicts(parse: Parser, useSemver: bool, ghost g: Graph)
      returns (newIps: seq<IP>, ghost h: Graph, ghost rounds: seq<seq<Graph>>)
      requires g.Ranked() && g.IsSnapshot() && ipTree in g.kids && ipTree.ip.None?
      modifies this, g.kids.Keys
      ensures ipTree == old(ipTree) && h.Ranked() && h.IsSnapshot() && h.kids.Keys == g.kids.Keys
      ensures if useSemver then Rounds(parse, ipTree, g.Compressed(), rounds, h) && UntilQuiet(parse, ipTree, rounds)
              else h == g
      ensures SameNames(g, h) && (!Undecided(parse, g, ipTree) ==> h.kids == g.kids)
      ensures useSemver ==> forall m :: Quiet(parse, h, ipTree, m)
      ensures Selected(h, ipTree, newIps)
    {
      h, rounds := g, [];
      if useSemver {
        h, rounds := ResolveBySemver(parse, g);
      }
      var keys, conflicts := GetConflicts(ipTree, h);
      forall m | m in keys ensures conflicts[m] != [] && Proper(conflicts[m]) {
        GroupsAreProper(h, ipTree, m);
        assert conflicts[m] == FirstPerCommit(h.AtRoot(ipTree, m));
      }
      newIps := SelectNodes(keys, conflicts);
      SelectionFits(h, ipTree, keys, conflicts, newIps);
    }
  }

  lemma {:induction false} SelectionFits(g: Graph, root: IPTreeNode, keys: seq<string>,
                                         conflicts: map<string, seq<IPTreeNode>>, newIps: seq<IP>)
    requires g.Acyclic() && root in g.kids && Proper(g.Flat(root)) && keys == NamesOf(g, root)
    requires |newIps| == |keys|
    requires forall m :: m in keys ==> m in conflicts && conflicts[m] == FirstPerCommit(g.AtRoot(root, m))
    requires forall i :: 0 <= i < |keys| ==>
               OneOf(conflicts[keys[i]], newIps[i])
    ensures Selected(g, root, newIps)
  {
    forall i | 0 <= i < |newIps|
      ensures newIps[i].name == keys[i]
    {
      var c := FirstPerCommit(g.AtRoot(root, keys[i]));
      assert keys[i] in keys && OneOf(c, newIps[i]);
      GroupsAreProper(g, root, keys[i]);
      var k :| 0 <= k < |c| && c[k].ip == Some(newIps[i]);
      assert c[k].Named(keys[i]);
    }
  }
}
