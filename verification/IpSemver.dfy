/** The choice among conflicting nodes that semantic versioning allows. Recognising and parsing a
    version string is the business of the semver package: it is a parameter here. */
module IpSemver {
  import opened Collections
  import opened IpTree
  import opened Semver

  type Parser = string -> Option<Version>

  function VersionOf(parse: Parser, x: IPTreeNode): Option<Version> {
    if x.ip.None? then None
    else
      var s := x.ip.value.commit;
      parse(if s != [] && s[0] == 'v' then s[1..] else s)
  }

  ghost predicate AllVersions(parse: Parser, list: seq<IPTreeNode>) {
    forall i :: 0 <= i < |list| ==> VersionOf(parse, list[i]).Some?
  }

  ghost function Versions(parse: Parser, list: seq<IPTreeNode>): (vs: seq<Version>)
    requires AllVersions(parse, list)
    ensures |vs| == |list| && forall i :: 0 <= i < |vs| ==> vs[i] == VersionOf(parse, list[i]).value
  {
    seq(|list|, i requires 0 <= i < |list| => VersionOf(parse, list[i]).value)
  }

  /** k is the last position of the greatest version. */
  ghost predicate IsLastMax(vs: seq<Version>, k: nat) {
    k < |vs| && (forall j :: 0 <= j < |vs| ==> AtMost(vs[j], vs[k]))
    && forall j :: k < j < |vs| ==> vs[j] != vs[k]
  }

  /** Some list of two or more nodes can be resolved: all are versions and all ranges are met. */
  ghost predicate Resolvable(parse: Parser, list: seq<IPTreeNode>) {
    AllVersions(parse, list) && AllMeet(Versions(parse, list))
  }

  ghost function LastMax(vs: seq<Version>): (k: nat)
    requires |vs| > 0
    ensures IsLastMax(vs, k)
  {
    if |vs| == 1 then 0
    else
      var n := |vs| - 1;
      var k := LastMax(vs[..n]);
      LessIsTotalOrder(vs[k], vs[n], vs[k]);
      assert forall j :: 0 <= j < n ==> vs[j] == vs[..n][j];
      if AtMost(vs[k], vs[n]) then
        assert forall j :: 0 <= j < n ==> AtMost(vs[j], vs[n]) by {
          forall j | 0 <= j < n ensures AtMost(vs[j], vs[n]) {
            LessIsTotalOrder(vs[j], vs[k], vs[n]);
          }
        }
        n
      else k
  }

  ghost function Resolve(parse: Parser, list: seq<IPTreeNode>): Option<IPTreeNode>
    requires |list| > 0
  {
    if |list| == 1 then Some(list[0])
    else if Resolvable(parse, list) then Some(list[LastMax(Versions(parse, list))])
    else None
  }

  /** max() over the keys: the first that no later one exceeds. */
  function MaxOf(keys: seq<Version>): (m: Version)
    requires |keys| > 0
    ensures m in keys && forall i :: 0 <= i < |keys| ==> AtMost(keys[i], m)
  {
    var n := |keys| - 1;
    if n == 0 then keys[0]
    else
      var m := MaxOf(keys[..n]);
      LessIsTotalOrder(m, keys[n], m);
      assert forall i :: 0 <= i < n ==> keys[i] == keys[..n][i];
      if Less(m, keys[n]) then
        assert forall i :: 0 <= i < n ==> AtMost(keys[i], keys[n]) by {
          forall i | 0 <= i < n ensures AtMost(keys[i], keys[n]) {
            LessIsTotalOrder(keys[i], m, keys[n]);
          }
        }
        keys[n]
      else m
  }

  /** Every version against every requirement, stopping at the first that fails. */
  method Compatible(keys: seq<Version>, requirements: seq<(Version, Version)>) returns (ok: bool)
    ensures ok <==> forall i, j :: 0 <= i < |keys| && 0 <= j < |requirements| ==>
                      AtMost(requirements[j].0, keys[i]) && Less(keys[i], requirements[j].1)
  {
    ok := true;
    for i := 0 to |keys|
      invariant ok <==> forall i', j :: 0 <= i' < i && 0 <= j < |requirements| ==>
                          AtMost(requirements[j].0, keys[i']) && Less(keys[i'], requirements[j].1)
    {
      if ok {
        for j := 0 to |requirements|
          invariant ok
          invariant forall j' :: 0 <= j' < j ==>
                      AtMost(requirements[j'].0, keys[i]) && Less(keys[i], requirements[j'].1)
        {
          if AtMost(requirements[j].0, keys[i]) && Less(keys[i], requirements[j].1) {
            continue;
          } else {
            ok := false;
            break;
          }
        }
      }
    }
  }

  /** x is the last node of the list with version v. */
  ghost predicate LastWith(parse: Parser, list: seq<IPTreeNode>, v: Version, x: IPTreeNode) {
    exists k :: 0 <= k < |list| && VersionOf(parse, list[k]) == Some(v) && x == list[k]
      && forall j :: k < j < |list| ==> VersionOf(parse, list[j]) != Some(v)
  }

  lemma {:induction false} LastWithOneMore(parse: Parser, list: seq<IPTreeNode>, n: nat)
    requires n < |list| && VersionOf(parse, list[n]).Some?
    ensures forall v, x :: LastWith(parse, list[..n], v, x) && Some(v) != VersionOf(parse, list[n]) ==>
              LastWith(parse, list[..n + 1], v, x)
    ensures LastWith(parse, list[..n + 1], VersionOf(parse, list[n]).value, list[n])
  {
    forall v, x | LastWith(parse, list[..n], v, x) && Some(v) != VersionOf(parse, list[n])
      ensures LastWith(parse, list[..n + 1], v, x)
    {
      var k :| 0 <= k < n && VersionOf(parse, list[..n][k]) == Some(v) && x == list[..n][k]
        && forall j :: k < j < n ==> VersionOf(parse, list[..n][j]) != Some(v);
      assert forall j :: k < j < n ==> list[..n][j] == list[..n + 1][j];
      assert list[..n + 1][k] == x;
    }
    assert list[..n + 1][n] == list[n];
  }

  /** Requirements and version table of a list: a range per node, and the last node for every version. */
  ghost predicate Collected(parse: Parser, list: seq<IPTreeNode>, keys: seq<Version>,
                            requirements: seq<(Version, Version)>, mapping: map<Version, IPTreeNode>) {
    && AllVersions(parse, list) && |requirements| == |list| && mapping.Keys == (set v | v in keys)
    && (forall i :: 0 <= i < |list| ==>
          var v := VersionOf(parse, list[i]).value;
          v in keys && requirements[i] == (Lower(v), Upper(v)))
    && forall v :: v in keys ==> LastWith(parse, list, v, mapping[v])
  }

  lemma {:induction false} CollectOne(parse: Parser, list: seq<IPTreeNode>, n: nat, keys: seq<Version>,
                                      requirements: seq<(Version, Version)>, mapping: map<Version, IPTreeNode>)
    requires n < |list| && VersionOf(parse, list[n]).Some? && Collected(parse, list[..n], keys, requirements, mapping)
    ensures var v := VersionOf(parse, list[n]).value;
            Collected(parse, list[..n + 1], if v in mapping then keys else keys + [v],
                      requirements + [(Lower(v), Upper(v))], mapping[v := list[n]])
  {
    LastWithOneMore(parse, list, n);
    assert forall i :: 0 <= i < n ==> list[..n][i] == list[..n + 1][i];
  }

  /** Stops as soon as a commit is not a version. */
  method Collect(parse: Parser, list: seq<IPTreeNode>)
    returns (ok: bool, keys: seq<Version>, requirements: seq<(Version, Version)>, mapping: map<Version, IPTreeNode>)
    ensures ok <==> AllVersions(parse, list)
    ensures ok ==> Collected(parse, list, keys, requirements, mapping)
  {
    keys, requirements, mapping := [], [], map[];
    for n := 0 to |list|
      invariant Collected(parse, list[..n], keys, requirements, mapping)
    {
      var version := VersionOf(parse, list[n]);
      if version.None? {
        ok := false;
        return;
      }
      CollectOne(parse, list, n, keys, requirements, mapping);
      requirements := requirements + [(Lower(version.value), Upper(version.value))];
      if version.value !in mapping {
        keys := keys + [version.value];
      }
      mapping := mapping[version.value := list[n]];
    }
    assert list[..|list|] == list;
    ok := true;
  }

  /** The table has every version of the list and no other, so checking it is checking the list. */
  lemma {:induction false} CheckedIsMet(vs: seq<Version>, keys: seq<Version>, requirements: seq<(Version, Version)>)
    requires |requirements| == |vs|
    requires forall k :: 0 <= k < |vs| ==> vs[k] in keys && requirements[k] == (Lower(vs[k]), Upper(vs[k]))
    requires forall v :: v in keys ==> v in vs
    ensures AllMeet(vs) <==> forall i, j :: 0 <= i < |keys| && 0 <= j < |requirements| ==>
                               AtMost(requirements[j].0, keys[i]) && Less(keys[i], requirements[j].1)
  {
    if AllMeet(vs) {
      forall i, j | 0 <= i < |keys| && 0 <= j < |requirements|
        ensures AtMost(requirements[j].0, keys[i]) && Less(keys[i], requirements[j].1)
      {
        assert keys[i] in keys;
        var k :| 0 <= k < |vs| && vs[k] == keys[i];
        assert Meets(vs[k], vs[j]);
      }
    }
  }

  /** The greatest key is the greatest version of the list. */
  lemma {:induction false} MaxIsLastMax(vs: seq<Version>, keys: seq<Version>)
    requires |vs| > 0 && |keys| > 0
    requires (forall k :: 0 <= k < |vs| ==> vs[k] in keys) && forall v :: v in keys ==> v in vs
    ensures MaxOf(keys) == vs[LastMax(vs)]
  {
    var m, k := MaxOf(keys), LastMax(vs);
    assert m in vs && vs[k] in keys;
    LessIsTotalOrder(vs[k], m, vs[k]);
  }

  method TrySemverResolveConflict(parse: Parser, list: seq<IPTreeNode>) returns (r: Option<IPTreeNode>)
    requires |list| > 0
    ensures r == Resolve(parse, list)
  {
    if |list| == 1 {
      return Some(list[0]);
    }
    var ok, keys, requirements, mapping := Collect(parse, list);
    if !ok {
      return None;
    }
    ghost var vs := Versions(parse, list);
    forall v | v in keys ensures v in vs {
      KeyIsVersion(parse, list, v, mapping[v]);
    }
    CheckedIsMet(vs, keys, requirements);
    ok := Compatible(keys, requirements);
    if ok {
      assert vs[0] in keys;
      MaxIsLastMax(vs, keys);
      LastIsUnique(parse, list, LastMax(vs), mapping[MaxOf(keys)]);
      r := Some(mapping[MaxOf(keys)]);
    } else {
      r := None;
    }
  }

  lemma {:induction false} KeyIsVersion(parse: Parser, list: seq<IPTreeNode>, v: Version, x: IPTreeNode)
    requires AllVersions(parse, list) && LastWith(parse, list, v, x)
    ensures v in Versions(parse, list)
  {
    var k :| 0 <= k < |list| && VersionOf(parse, list[k]) == Some(v);
    assert Versions(parse, list)[k] == v;
  }

  lemma {:induction false} LastIsUnique(parse: Parser, list: seq<IPTreeNode>, k: nat, x: IPTreeNode)
    requires AllVersions(parse, list) && IsLastMax(Versions(parse, list), k)
    requires LastWith(parse, list, Versions(parse, list)[k], x)
    ensures x == list[k]
  {
    var v := Versions(parse, list)[k];
    var i :| 0 <= i < |list| && VersionOf(parse, list[i]) == Some(v) && x == list[i]
      && forall j :: i < j < |list| ==> VersionOf(parse, list[j]) != Some(v);
    assert Versions(parse, list)[i] == v;
    assert VersionOf(parse, list[k]) == Some(v);
  }

  /** Sound, complete and maximal: a list of two or more nodes is resolved exactly when every commit
      is a version, all versions are in one compatibility class, and none is a pre-release of the
      first version of that class; the result is the last node carrying the greatest version. */
  lemma {:induction false} ResolveIff(parse: Parser, list: seq<IPTreeNode>)
    requires |list| >= 2
    ensures Resolve(parse, list).Some?
            <==> AllVersions(parse, list)
                 && (forall i :: 0 <= i < |list| ==> !Premature(VersionOf(parse, list[i]).value))
                 && (forall i, j :: 0 <= i < |list| && 0 <= j < |list| ==>
                       SameClass(VersionOf(parse, list[i]).value, VersionOf(parse, list[j]).value))
    ensures Resolve(parse, list).Some? ==>
              exists k :: 0 <= k < |list| && Resolve(parse, list).value == list[k]
                && (forall j :: 0 <= j < |list| ==>
                      var v, w := VersionOf(parse, list[j]).value, VersionOf(parse, list[k]).value;
                      AtMost(v, w) && Meets(w, v) && (j > k ==> v != w))
  {
    if AllVersions(parse, list) {
      var vs := Versions(parse, list);
      AllMeetIff(vs);
      if AllMeet(vs) {
        var k := LastMax(vs);
        assert IsLastMax(vs, k);
        assert 0 <= k < |list| && Resolve(parse, list).value == list[k];
        forall j | 0 <= j < |list|
          ensures var v, w := VersionOf(parse, list[j]).value, VersionOf(parse, list[k]).value;
                  AtMost(v, w) && Meets(w, v) && (j > k ==> v != w)
        {
          assert vs[j] == VersionOf(parse, list[j]).value && Meets(vs[k], vs[j]);
        }
      }
    }
  }

  // ---- Which text of a tag is the version ----

  /** A tag and the same tag with a `v` in front of it have the same version; only one `v` is dropped. */
  lemma {:induction false} OneLetterDropped(parse: Parser, x: IPTreeNode, t: string)
    requires x.ip.Some?
    ensures x.ip.value.commit == ['v'] + t ==> VersionOf(parse, x) == parse(t)
    ensures x.ip.value.commit == t && (t == [] || t[0] != 'v') ==> VersionOf(parse, x) == parse(t)
  {
    assert (['v'] + t)[1..] == t;
  }

  /** Each node of the second list stands for the node of the first, with a `v` in front of its tag. */
  ghost predicate Tagged(list: seq<IPTreeNode>, tagged: seq<IPTreeNode>) {
    |list| == |tagged|
    && forall i :: 0 <= i < |list| ==>
         list[i].ip.Some? && tagged[i].ip.Some? && tagged[i].ip.value.commit == ['v'] + list[i].ip.value.commit
         && (list[i].ip.value.commit == [] || list[i].ip.value.commit[0] != 'v')
  }

  /** The choice does not change when every tag of a list gains a leading `v`. */
  lemma {:induction false} TaggingChangesNothing(parse: Parser, list: seq<IPTreeNode>, tagged: seq<IPTreeNode>)
    requires Tagged(list, tagged) && |list| > 0
    ensures Resolve(parse, list).Some? <==> Resolve(parse, tagged).Some?
    ensures Resolve(parse, list).Some? ==>
              exists k :: 0 <= k < |list| && Resolve(parse, list).value == list[k]
                && Resolve(parse, tagged).value == tagged[k]
  {
    forall i | 0 <= i < |list| ensures VersionOf(parse, tagged[i]) == VersionOf(parse, list[i]) {
      OneLetterDropped(parse, tagged[i], list[i].ip.value.commit);
      OneLetterDropped(parse, list[i], list[i].ip.value.commit);
    }
    if AllVersions(parse, list) {
      assert AllVersions(parse, tagged) && Versions(parse, tagged) == Versions(parse, list);
      var k := LastMax(Versions(parse, list));
      assert |list| > 1 && Resolve(parse, list).Some? ==> Resolve(parse, list).value == list[k];
    } else {
      assert !AllVersions(parse, tagged) by {
        var i :| 0 <= i < |list| && VersionOf(parse, list[i]).None?;
        assert VersionOf(parse, tagged[i]).None?;
      }
    }
    if |list| == 1 {
      assert Resolve(parse, list).value == list[0] && Resolve(parse, tagged).value == tagged[0];
    }
  }
}
