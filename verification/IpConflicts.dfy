/** Grouping of the flattened tree by IP name, and the choice that semantic versioning allows
    within one group. */
module IpConflicts {
  import opened Collections
  import opened IpTree

  // ---- Specification of the grouping ----

  ghost predicate Proper(s: seq<IPTreeNode>) { forall i :: 0 <= i < |s| ==> s[i].ip.Some? }

  function Requested(x: IPTreeNode): Option<string> {
    if x.ip.Some? then x.ip.value.requested else None
  }

  ghost function Commits(s: seq<IPTreeNode>): set<Option<string>> {
    if s == [] then {} else Commits(s[..|s| - 1]) + {Requested(s[|s| - 1])}
  }

  lemma {:induction false} CommitsMember(s: seq<IPTreeNode>, x: IPTreeNode)
    requires x in s
    ensures Requested(x) in Commits(s)
  {
    if x != s[|s| - 1] {
      assert s == s[..|s| - 1] + [s[|s| - 1]];
      CommitsMember(s[..|s| - 1], x);
    }
  }

  lemma {:induction false} CommitsSnoc(s: seq<IPTreeNode>, x: IPTreeNode)
    ensures Commits(s + [x]) == Commits(s) + {Requested(x)}
  {
    assert (s + [x])[..|s|] == s;
  }

  /** The first node for every commit that is asked for. */
  ghost function FirstPerCommit(s: seq<IPTreeNode>): (r: seq<IPTreeNode>)
    ensures forall i :: 0 <= i < |r| ==> r[i] in s
  {
    if s == [] then []
    else
      var n := |s| - 1;
      if Requested(s[n]) in Commits(s[..n]) then FirstPerCommit(s[..n]) else FirstPerCommit(s[..n]) + [s[n]]
  }

  /** The distinct names, in the order of their first appearance. */
  ghost function Names(s: seq<IPTreeNode>): seq<string>
    requires Proper(s)
  {
    if s == [] then []
    else
      var n := |s| - 1;
      var m := s[n].ip.value.name;
      if exists i :: 0 <= i < n && s[i].Named(m) then Names(s[..n]) else Names(s[..n]) + [m]
  }

  lemma {:induction false} NamesComplete(s: seq<IPTreeNode>)
    requires Proper(s)
    ensures forall m :: m in Names(s) <==> exists i :: 0 <= i < |s| && s[i].Named(m)
    ensures forall i, j :: 0 <= i < j < |Names(s)| ==> Names(s)[i] != Names(s)[j]
  {
    if s != [] {
      var n := |s| - 1;
      NamesComplete(s[..n]);
      var p := Names(s[..n]);
      forall i, j | 0 <= i < j < |Names(s)| ensures Names(s)[i] != Names(s)[j] {
        if j == |p| {
          assert p[i] in p;
          var k :| 0 <= k < |s[..n]| && s[..n][k].Named(p[i]);
          assert s[k].Named(p[i]);
        }
      }
      forall m ensures m in Names(s) <==> exists i :: 0 <= i < |s| && s[i].Named(m) {
        if m == s[n].ip.value.name {
          assert s[n].Named(m);
        }
        if i :| 0 <= i < n && s[i].Named(m) {
          assert s[..n][i].Named(m);
        }
      }
    }
  }

  lemma {:induction false} FilterMembers(s: seq<IPTreeNode>, m: string)
    ensures forall x :: x in Filter(s, m) <==> x in s && x.Named(m)
    ensures forall i :: 0 <= i < |Filter(s, m)| ==> Filter(s, m)[i] in s && Filter(s, m)[i].Named(m)
  {
    if s != [] {
      FilterMembers(s[..|s| - 1], m);
      assert s == s[..|s| - 1] + [s[|s| - 1]];
    }
  }

  /** Appends the elements of s that are not there yet, one after the other. */
  ghost function AddNew(acc: seq<IPTreeNode>, s: seq<IPTreeNode>): seq<IPTreeNode> {
    if s == [] then acc
    else
      var a := AddNew(acc, s[..|s| - 1]);
      if s[|s| - 1] in a then a else a + [s[|s| - 1]]
  }

  lemma {:induction false} AddNewMembers(acc: seq<IPTreeNode>, s: seq<IPTreeNode>)
    ensures forall x :: x in AddNew(acc, s) <==> x in acc || x in s
    ensures Distinct(acc) ==> Distinct(AddNew(acc, s))
  {
    if s != [] {
      AddNewMembers(acc, s[..|s| - 1]);
      assert s == s[..|s| - 1] + [s[|s| - 1]];
    }
  }

  lemma {:induction false} AddNewNothing(acc: seq<IPTreeNode>, s: seq<IPTreeNode>)
    requires forall x :: x in s ==> x in acc
    ensures AddNew(acc, s) == acc
  {
    if s != [] {
      AddNewNothing(acc, s[..|s| - 1]);
    }
  }

  lemma {:induction false} AddNewHead(f: IPTreeNode, s: seq<IPTreeNode>)
    requires s != [] && s[0] == f
    ensures AddNew([f], s) == AddNew([], s)
    decreases |s|
  {
    if |s| > 1 {
      AddNewHead(f, s[..|s| - 1]);
    }
  }

  /** Repetitions of a node are repetitions of its commit, so they do not matter. */
  lemma {:induction false} DedupKeepsFirsts(s: seq<IPTreeNode>)
    ensures FirstPerCommit(AddNew([], s)) == FirstPerCommit(s)
    ensures Commits(AddNew([], s)) == Commits(s)
  {
    if s != [] {
      var n := |s| - 1;
      var a := AddNew([], s[..n]);
      DedupKeepsFirsts(s[..n]);
      if s[n] in a {
        CommitsMember(a, s[n]);
      } else {
        CommitsSnoc(a, s[n]);
        assert (a + [s[n]])[..|a|] == a;
      }
    }
  }

  // ---- get_conflicts ----

  ghost function Without(s: seq<IPTreeNode>, r: seq<IPTreeNode>): seq<IPTreeNode> {
    if s == [] then []
    else if s[|s| - 1] in r then Without(s[..|s| - 1], r)
    else Without(s[..|s| - 1], r) + [s[|s| - 1]]
  }

  lemma {:induction false} RemoveFirstSnoc(a: seq<IPTreeNode>, y: IPTreeNode, x: IPTreeNode)
    ensures RemoveFirst(a + [y], x)
            == if x in a then RemoveFirst(a, x) + [y] else if x == y then a else a + [y]
    decreases |a|
  {
    if a == [] {
      assert a + [y] == [y];
    } else {
      assert (a + [y])[1..] == a[1..] + [y];
      RemoveFirstSnoc(a[1..], y, x);
      assert a == [a[0]] + a[1..];
    }
  }

  lemma {:induction false} WithoutMembers(s: seq<IPTreeNode>, r: seq<IPTreeNode>)
    ensures forall x :: x in Without(s, r) <==> x in s && x !in r
  {
    if s != [] {
      WithoutMembers(s[..|s| - 1], r);
      assert s == s[..|s| - 1] + [s[|s| - 1]];
    }
  }

  lemma {:induction false} WithoutOneMore(s: seq<IPTreeNode>, r: seq<IPTreeNode>, x: IPTreeNode)
    requires Distinct(s) && x !in r
    ensures Without(s, r + [x]) == RemoveFirst(Without(s, r), x)
  {
    if s != [] {
      var n := |s| - 1;
      var before := Without(s[..n], r);
      WithoutOneMore(s[..n], r, x);
      assert s[n] in r + [x] <==> s[n] in r || s[n] == x;
      if s[n] == x {
        assert x !in before by {
          WithoutMembers(s[..n], r);
        }
        RemoveAbsent(before, x);
        RemoveFirstSnoc(before, x, x);
      } else if s[n] !in r {
        RemoveFirstSnoc(before, s[n], x);
        if x !in before {
          RemoveAbsent(before, x);
        }
      }
    }
  }

  lemma {:induction false} RemoveAbsent(s: seq<IPTreeNode>, x: IPTreeNode)
    requires x !in s
    ensures RemoveFirst(s, x) == s
  {
    if s != [] {
      RemoveAbsent(s[1..], x);
    }
  }

  lemma {:induction false} WithoutRepeats(c: seq<IPTreeNode>, r: seq<IPTreeNode>, i: nat)
    requires Distinct(c) && i <= |c| && Marks(c, r)
    ensures Without(c[..i], r) == FirstPerCommit(c[..i])
    decreases i
  {
    if i > 0 {
      WithoutRepeats(c, r, i - 1);
      assert c[..i][..i - 1] == c[..i - 1];
    }
  }

  /** The nodes of a group that ask for a commit already asked for. */
  ghost function RepeatsOf(c: seq<IPTreeNode>): seq<IPTreeNode> {
    if c == [] then []
    else
      var n := |c| - 1;
      RepeatsOf(c[..n]) + if Requested(c[n]) in Commits(c[..n]) then [c[n]] else []
  }

  lemma {:induction false} RepeatsMembers(c: seq<IPTreeNode>, x: IPTreeNode)
    requires x in RepeatsOf(c)
    ensures x in c
  {
    if x in RepeatsOf(c[..|c| - 1]) {
      RepeatsMembers(c[..|c| - 1], x);
    }
  }

  lemma {:induction false} RepeatAt(c: seq<IPTreeNode>, k: nat)
    requires Distinct(c) && k < |c|
    ensures c[k] in RepeatsOf(c) <==> Requested(c[k]) in Commits(c[..k])
    decreases |c|
  {
    var n := |c| - 1;
    if k == n {
      if c[n] in RepeatsOf(c[..n]) {
        RepeatsMembers(c[..n], c[n]);
        assert false;
      }
    } else {
      RepeatAt(c[..n], k);
      assert c[..n][k] == c[k] && c[..n][..k] == c[..k];
      assert c[k] in RepeatsOf(c) <==> c[k] in RepeatsOf(c[..n]);
    }
  }

  lemma {:induction false} RepeatsDistinct(c: seq<IPTreeNode>)
    requires Distinct(c)
    ensures Distinct(RepeatsOf(c))
  {
    if c != [] {
      var n := |c| - 1;
      RepeatsDistinct(c[..n]);
      if c[n] in RepeatsOf(c[..n]) {
        RepeatsMembers(c[..n], c[n]);
      }
    }
  }

  /** What repeats a commit is marked, and nothing else. */
  ghost predicate Marks(c: seq<IPTreeNode>, r: seq<IPTreeNode>) {
    forall k :: 0 <= k < |c| ==> (c[k] in r <==> Requested(c[k]) in Commits(c[..k]))
  }

  lemma {:induction false} RepeatsOfMarks(c: seq<IPTreeNode>)
    requires Distinct(c)
    ensures Distinct(RepeatsOf(c)) && Marks(c, RepeatsOf(c))
  {
    RepeatsDistinct(c);
    forall k | 0 <= k < |c| ensures c[k] in RepeatsOf(c) <==> Requested(c[k]) in Commits(c[..k]) {
      RepeatAt(c, k);
    }
  }

  method Repeats(c: seq<IPTreeNode>) returns (nodesToRemove: seq<IPTreeNode>)
    ensures nodesToRemove == RepeatsOf(c)
  {
    nodesToRemove := [];
    var commits: seq<Option<string>> := [];
    for i := 0 to |c|
      invariant forall v :: v in commits <==> v in Commits(c[..i])
      invariant nodesToRemove == RepeatsOf(c[..i])
    {
      var ip := c[i];
      assert c[..i + 1] == c[..i] + [ip];
      CommitsSnoc(c[..i], ip);
      if Requested(ip) in commits {
        nodesToRemove := nodesToRemove + [ip];
      } else {
        commits := commits + [Requested(ip)];
      }
    }
    assert c[..|c|] == c;
  }

  /** Taking the repeats out leaves the first node per commit. */
  lemma {:induction false} WithoutItsRepeats(c: seq<IPTreeNode>)
    requires Distinct(c)
    ensures Distinct(RepeatsOf(c)) && Without(c, RepeatsOf(c)) == FirstPerCommit(c)
  {
    RepeatsOfMarks(c);
    WithoutRepeats(c, RepeatsOf(c), |c|);
    assert c[..|c|] == c;
  }

  lemma {:induction false} RemoveNext(c: seq<IPTreeNode>, r: seq<IPTreeNode>, k: nat)
    requires Distinct(c) && Distinct(r) && k < |r|
    ensures RemoveFirst(Without(c, r[..k]), r[k]) == Without(c, r[..k + 1])
  {
    NotBefore(r, k);
    WithoutOneMore(c, r[..k], r[k]);
    assert r[..k + 1] == r[..k] + [r[k]];
  }

  /** Collapses a group to its first node per commit, by listing the others and removing them. */
  method Collapse(group: seq<IPTreeNode>) returns (c: seq<IPTreeNode>)
    requires Distinct(group)
    ensures c == FirstPerCommit(group)
  {
    c := group;
    var nodesToRemove := Repeats(c);
    WithoutItsRepeats(group);
    WithoutNone(group);
    for k := 0 to |nodesToRemove|
      invariant c == Without(group, nodesToRemove[..k])
    {
      RemoveNext(group, nodesToRemove, k);
      c := RemoveFirst(c, nodesToRemove[k]);
    }
    assert nodesToRemove[..|nodesToRemove|] == nodesToRemove;
  }

  lemma {:induction false} NotBefore(s: seq<IPTreeNode>, k: nat)
    requires Distinct(s) && k < |s|
    ensures s[k] !in s[..k]
  {
  }

  lemma {:induction false} WithoutNone(s: seq<IPTreeNode>)
    ensures Without(s, []) == s
  {
    if s != [] {
      WithoutNone(s[..|s| - 1]);
    }
  }

  /** The inner loop over the flat list: everything else that is named like f. */
  method CollectLike(f: IPTreeNode, flat: seq<IPTreeNode>, group: seq<IPTreeNode>) returns (c: seq<IPTreeNode>)
    requires Proper(flat) && f.ip.Some?
    ensures c == AddNew(AddNew(group, [f]), Filter(flat, f.ip.value.name))
  {
    var m := f.ip.value.name;
    c := group;
    if f !in c {
      c := c + [f];
    }
    assert c == AddNew(group, [f]) by { assert [f][..0] == []; }
    for j := 0 to |flat|
      invariant c == AddNew(AddNew(group, [f]), Filter(flat[..j], m)) && f in c
    {
      var g := flat[j];
      assert flat[..j + 1][..j] == flat[..j];
      if f != g && g.ip.value.name == m {
        if g !in c {
          c := c + [g];
        }
      }
    }
    assert flat[..|flat|] == flat;
  }

  /** The first node of a name starts its group and collects it; later ones add nothing. */
  lemma {:induction false} CollectedGroup(flat: seq<IPTreeNode>, i: nat, group: seq<IPTreeNode>)
    requires Proper(flat) && i < |flat| && group == GroupSoFar(flat, i, flat[i].ip.value.name)
    ensures AddNew(AddNew(group, [flat[i]]), Filter(flat, flat[i].ip.value.name))
            == AddNew([], Filter(flat, flat[i].ip.value.name)) != []
  {
    var f := flat[i];
    var m := f.ip.value.name;
    var all := Filter(flat, m);
    assert f.Named(m);
    assert [f][..0] == [];
    if group == [] {
      EmptyGroup(flat, i, m);
      FilterFirst(flat, i);
      AddNewHead(f, all);
      assert AddNew(group, [f]) == [f];
    } else {
      assert group == AddNew([], all);
      FilterMembers(flat, m);
      AddNewMembers([], all);
      assert f in all && f in group;
      assert AddNew(group, [f]) == group;
      AddNewNothing(group, all);
    }
    GroupNonEmpty(flat, i, m);
  }

  lemma {:induction false} EmptyGroup(flat: seq<IPTreeNode>, i: nat, m: string)
    requires i <= |flat| && GroupSoFar(flat, i, m) == []
    ensures forall j :: 0 <= j < i ==> !flat[j].Named(m)
  {
    if j :| 0 <= j < i && flat[j].Named(m) {
      GroupNonEmpty(flat, j, m);
    }
  }

  lemma {:induction false} GroupStep(flat: seq<IPTreeNode>, i: nat, m: string)
    requires i < |flat|
    ensures GroupSoFar(flat, i + 1, m)
            == if flat[i].Named(m) then AddNew([], Filter(flat, m)) else GroupSoFar(flat, i, m)
  {
  }

  lemma {:induction false} FilterNone(s: seq<IPTreeNode>, m: string)
    requires forall j :: 0 <= j < |s| ==> !s[j].Named(m)
    ensures Filter(s, m) == []
  {
    if s != [] {
      FilterNone(s[..|s| - 1], m);
    }
  }

  lemma {:induction false} FilterFirst(flat: seq<IPTreeNode>, i: nat)
    requires Proper(flat) && i < |flat|
    requires forall j :: 0 <= j < i ==> !flat[j].Named(flat[i].ip.value.name)
    ensures var all := Filter(flat, flat[i].ip.value.name); all != [] && all[0] == flat[i]
  {
    var m := flat[i].ip.value.name;
    FilterNone(flat[..i], m);
    assert Filter(flat[..i + 1], m) == [flat[i]] by {
      assert flat[..i + 1][..i] == flat[..i];
    }
    assert flat == flat[..i + 1] + flat[i + 1..];
    FilterSplit(flat[..i + 1], flat[i + 1..], m);
  }

  /** Every name gets an empty group. */
  method EmptyGroups(flat: seq<IPTreeNode>) returns (keys: seq<string>, dict: map<string, seq<IPTreeNode>>)
    requires Proper(flat)
    ensures keys == Names(flat)
    ensures forall m :: m in dict <==> m in keys
    ensures forall m :: m in dict ==> dict[m] == []
  {
    keys, dict := [], map[];
    for i := 0 to |flat|
      invariant keys == Names(flat[..i])
      invariant forall m :: m in dict <==> m in keys
      invariant forall m :: m in dict ==> dict[m] == []
    {
      var name := flat[i].ip.value.name;
      NamesComplete(flat[..i]);
      assert flat[..i + 1][..i] == flat[..i];
      assert (exists k :: 0 <= k < i && flat[..i][k].Named(name)) <==> exists k :: 0 <= k < i && flat[k].Named(name);
      if name !in dict {
        keys := keys + [name];
      }
      dict := dict[name := []];
    }
    assert flat[..|flat|] == flat;
  }

  /** What the group of m holds once the nodes before position i have been treated. */
  ghost function GroupSoFar(flat: seq<IPTreeNode>, i: nat, m: string): seq<IPTreeNode>
    requires i <= |flat|
  {
    if exists k :: 0 <= k < i && flat[k].Named(m) then AddNew([], Filter(flat, m)) else []
  }

  lemma {:induction false} GroupNonEmpty(flat: seq<IPTreeNode>, k: nat, m: string)
    requires k < |flat| && flat[k].Named(m)
    ensures AddNew([], Filter(flat, m)) != []
  {
    FilterMembers(flat, m);
    AddNewMembers([], Filter(flat, m));
    assert flat[k] in AddNew([], Filter(flat, m));
  }

  lemma {:induction false} EveryNodeHasAGroup(flat: seq<IPTreeNode>)
    requires Proper(flat)
    ensures forall i :: 0 <= i < |flat| ==> flat[i].ip.value.name in Names(flat)
  {
    NamesComplete(flat);
    forall i | 0 <= i < |flat| ensures flat[i].ip.value.name in Names(flat) {
      assert flat[i].Named(flat[i].ip.value.name);
    }
  }

  /** The groups before they are collapsed, as an ordered dictionary. */
  method GroupByName(flat: seq<IPTreeNode>) returns (keys: seq<string>, dict: map<string, seq<IPTreeNode>>)
    requires Proper(flat)
    ensures keys == Names(flat)
    ensures forall m :: m in dict <==> m in keys
    ensures forall m :: m in dict ==> dict[m] == AddNew([], Filter(flat, m)) != []
  {
    keys, dict := EmptyGroups(flat);
    EveryNodeHasAGroup(flat);
    for i := 0 to |flat|
      invariant forall m :: m in dict <==> m in keys
      invariant forall m :: m in dict ==> dict[m] == GroupSoFar(flat, i, m)
    {
      var f := flat[i];
      var name := f.ip.value.name;
      CollectedGroup(flat, i, dict[name]);
      var c := CollectLike(f, flat, dict[name]);
      GroupsNext(flat, i, c);
      dict := dict[name := c];
    }
    forall m | m in dict ensures dict[m] == AddNew([], Filter(flat, m)) != [] {
      GroupInTheEnd(flat, m);
    }
  }

  lemma {:induction false} GroupInTheEnd(flat: seq<IPTreeNode>, m: string)
    requires Proper(flat) && m in Names(flat)
    ensures GroupSoFar(flat, |flat|, m) == AddNew([], Filter(flat, m)) != []
  {
    NamesComplete(flat);
    var k :| 0 <= k < |flat| && flat[k].Named(m);
    GroupNonEmpty(flat, k, m);
  }

  /** Treating the node at position i completes the group of its name and leaves the others alone. */
  lemma {:induction false} GroupsNext(flat: seq<IPTreeNode>, i: nat, c: seq<IPTreeNode>)
    requires Proper(flat) && i < |flat| && c == AddNew([], Filter(flat, flat[i].ip.value.name))
    ensures forall m :: GroupSoFar(flat, i + 1, m)
                     == if m == flat[i].ip.value.name then c else GroupSoFar(flat, i, m)
  {
    forall m ensures GroupSoFar(flat, i + 1, m) == if m == flat[i].ip.value.name then c else GroupSoFar(flat, i, m) {
      GroupStep(flat, i, m);
    }
  }

  /** Collapses every group in place. */
  method CollapseAll(keys: seq<string>, groups: map<string, seq<IPTreeNode>>)
    returns (conflicts: map<string, seq<IPTreeNode>>)
    requires forall i, j :: 0 <= i < j < |keys| ==> keys[i] != keys[j]
    requires forall m :: m in groups <==> m in keys
    requires forall m :: m in groups ==> Distinct(groups[m])
    ensures conflicts.Keys == groups.Keys
    ensures forall m :: m in groups ==> conflicts[m] == FirstPerCommit(groups[m])
  {
    conflicts := groups;
    for i := 0 to |keys|
      invariant conflicts.Keys == groups.Keys
      invariant forall j :: 0 <= j < i ==> conflicts[keys[j]] == FirstPerCommit(groups[keys[j]])
      invariant forall j :: i <= j < |keys| ==> conflicts[keys[j]] == groups[keys[j]]
    {
      var c := Collapse(conflicts[keys[i]]);
      conflicts := conflicts[keys[i] := c];
    }
  }

  /** For every name below the root, in the order of the flattening, the first node per commit.
      No group is ever empty, so the eviction of empty groups has nothing to do. */
  method GetConflicts(root: IPTreeNode, ghost g: Graph)
    returns (keys: seq<string>, conflicts: map<string, seq<IPTreeNode>>)
    requires g.Acyclic() && root in g.kids && g.IsSnapshot()
    ensures Proper(g.Flat(root)) && keys == Names(g.Flat(root))
    ensures forall m :: m in conflicts <==> m in keys
    ensures forall m :: m in conflicts ==> conflicts[m] == FirstPerCommit(g.AtRoot(root, m)) != []
  {
    var flat := root.FlattenizeChildren(g);
    g.FlatInGraph(g.rank(root), g.kids[root]);
    var groups;
    keys, groups := GroupByName(flat);
    NamesComplete(flat);
    forall m | m in groups
      ensures Distinct(groups[m]) && FirstPerCommit(groups[m]) == FirstPerCommit(g.AtRoot(root, m)) != []
    {
      AddNewMembers([], Filter(flat, m));
      g.OccIsFilter(g.rank(root), g.kids[root], m);
      DedupKeepsFirsts(Filter(flat, m));
      FirstPerCommitNonEmpty(groups[m]);
    }
    conflicts := CollapseAll(keys, groups);
  }

  lemma {:induction false} FirstPerCommitNonEmpty(s: seq<IPTreeNode>)
    requires s != []
    ensures FirstPerCommit(s) != [] && FirstPerCommit(s)[0] == s[0]
    decreases |s|
  {
    if |s| > 1 {
      FirstPerCommitNonEmpty(s[..|s| - 1]);
    }
  }

  /** Position i is the first that asks for its commit. */
  ghost predicate IsFirst(s: seq<IPTreeNode>, i: nat) {
    i < |s| && Requested(s[i]) !in Commits(s[..i])
  }

  ghost predicate HasFirst(s: seq<IPTreeNode>, x: IPTreeNode) { exists i: nat :: IsFirst(s, i) && s[i] == x }

  /** With one more node at the end, its position is the only one that can be added. */
  lemma {:induction false} HasFirstSnoc(s: seq<IPTreeNode>, x: IPTreeNode)
    requires s != []
    ensures HasFirst(s, x) <==> HasFirst(s[..|s| - 1], x) || (IsFirst(s, |s| - 1) && s[|s| - 1] == x)
  {
    var n := |s| - 1;
    if HasFirst(s[..n], x) {
      var i: nat :| IsFirst(s[..n], i) && s[..n][i] == x;
      assert s[..n][..i] == s[..i];
      assert IsFirst(s, i) && s[i] == x;
    }
    if HasFirst(s, x) {
      var i: nat :| IsFirst(s, i) && s[i] == x;
      if i < n {
        assert s[..n][..i] == s[..i];
        assert IsFirst(s[..n], i) && s[..n][i] == x;
      }
    }
  }

  lemma {:induction false} FirstsKept(s: seq<IPTreeNode>, x: IPTreeNode)
    ensures x in FirstPerCommit(s) <==> HasFirst(s, x)
  {
    if s != [] {
      FirstsKept(s[..|s| - 1], x);
      HasFirstSnoc(s, x);
    }
  }

  lemma {:induction false} CommitsKept(s: seq<IPTreeNode>)
    ensures Commits(FirstPerCommit(s)) == Commits(s)
    ensures forall i, j :: 0 <= i < j < |FirstPerCommit(s)| ==>
              Requested(FirstPerCommit(s)[i]) != Requested(FirstPerCommit(s)[j])
  {
    if s != [] {
      var n := |s| - 1;
      var p := FirstPerCommit(s[..n]);
      CommitsKept(s[..n]);
      CommitsSnoc(p, s[n]);
      forall i | 0 <= i < |p| ensures Requested(p[i]) in Commits(p) {
        CommitsMember(p, p[i]);
      }
    }
  }

  /** What the collapsed group is: a node is kept exactly when it stands at a position where its
      commit is asked for first; every commit is kept, and none is left twice. */
  lemma {:induction false} FirstPerCommitIff(s: seq<IPTreeNode>)
    ensures forall x :: x in s ==> (x in FirstPerCommit(s) <==> HasFirst(s, x))
    ensures Commits(FirstPerCommit(s)) == Commits(s)
    ensures forall i, j :: 0 <= i < j < |FirstPerCommit(s)| ==>
              Requested(FirstPerCommit(s)[i]) != Requested(FirstPerCommit(s)[j])
  {
    CommitsKept(s);
    forall x | x in s ensures x in FirstPerCommit(s) <==> HasFirst(s, x) {
      FirstsKept(s, x);
    }
  }

  /** The positions of the nodes that are kept: they stay in order. */
  lemma {:induction false} FirstPositions(s: seq<IPTreeNode>) returns (pos: seq<nat>)
    ensures |pos| == |FirstPerCommit(s)|
    ensures forall i :: 0 <= i < |pos| ==> IsFirst(s, pos[i]) && FirstPerCommit(s)[i] == s[pos[i]]
    ensures forall i, j :: 0 <= i < j < |pos| ==> pos[i] < pos[j]
  {
    pos := [];
    if s != [] {
      var n := |s| - 1;
      var before := FirstPositions(s[..n]);
      forall i | 0 <= i < |before| ensures IsFirst(s, before[i]) && s[..n][before[i]] == s[before[i]] {
        assert IsFirst(s[..n], before[i]) && s[..n][..before[i]] == s[..before[i]];
      }
      pos := if Requested(s[n]) in Commits(s[..n]) then before else before + [n];
    }
  }

  /** Position p is where the name m appears first. */
  ghost predicate FirstNamed(s: seq<IPTreeNode>, m: string, p: nat) {
    p < |s| && s[p].Named(m) && forall q :: 0 <= q < p ==> !s[q].Named(m)
  }

  /** Where each name appears first: the keys stand in that order. */
  lemma {:induction false} NamePositions(s: seq<IPTreeNode>) returns (pos: seq<nat>)
    requires Proper(s)
    ensures |pos| == |Names(s)|
    ensures forall i :: 0 <= i < |pos| ==> FirstNamed(s, Names(s)[i], pos[i])
    ensures forall i, j :: 0 <= i < j < |pos| ==> pos[i] < pos[j]
  {
    pos := [];
    if s != [] {
      var n := |s| - 1;
      var before := NamePositions(s[..n]);
      forall i | 0 <= i < |before| ensures FirstNamed(s, Names(s[..n])[i], before[i]) {
        NamedBefore(s, Names(s[..n])[i], before[i]);
      }
      if exists i :: 0 <= i < n && s[i].Named(s[n].ip.value.name) {
        pos := before;
      } else {
        pos := before + [n];
        assert FirstNamed(s, s[n].ip.value.name, n);
      }
    }
  }

  lemma {:induction false} NamedBefore(s: seq<IPTreeNode>, m: string, p: nat)
    requires s != [] && FirstNamed(s[..|s| - 1], m, p)
    ensures p < |s| - 1 && FirstNamed(s, m, p)
  {
    var init := s[..|s| - 1];
    assert forall q :: 0 <= q <= p ==> init[q] == s[q];
  }

  /** It is the commit that the parent asks for which decides, not the one that was resolved. */
  lemma {:induction false} ParentDecides(x: IPTreeNode, y: IPTreeNode)
    requires x.ip.Some? && y.ip.Some?
    ensures FirstPerCommit([x, y]) == if x.ip.value.requested == y.ip.value.requested then [x] else [x, y]
  {
    assert [x, y][..1] == [x] && [x][..0] == [];
    assert Commits([x]) == {Requested(x)};
    assert FirstPerCommit([x]) == [x];
  }
}
