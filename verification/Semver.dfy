/** Semantic versions, their precedence order, and the ranges that the conflict resolver derives
    from them (Semantic Versioning 2.0.0, items 4, 8, 9 and 11). */
module Semver {
  import opened TextOrder

  datatype Identifier = Numeric(n: nat) | Alpha(s: string)

  /** `pre` lists the pre-release identifiers; a release has none. */
  datatype Version = Version(major: nat, minor: nat, patch: nat, pre: seq<Identifier>)

  predicate IdentifierLess(a: Identifier, b: Identifier) {
    match (a, b)
    case (Numeric(x), Numeric(y)) => x < y
    case (Numeric(_), Alpha(_)) => true
    case (Alpha(_), Numeric(_)) => false
    case (Alpha(x), Alpha(y)) => StringLess(x, y)
  }

  predicate IdentifiersLess(a: seq<Identifier>, b: seq<Identifier>) {
    if b == [] then false
    else if a == [] then true
    else if a[0] == b[0] then IdentifiersLess(a[1..], b[1..])
    else IdentifierLess(a[0], b[0])
  }

  /** A pre-release comes before the release that it announces. */
  predicate PreLess(a: seq<Identifier>, b: seq<Identifier>) {
    if a == [] then false else if b == [] then true else IdentifiersLess(a, b)
  }

  predicate Less(a: Version, b: Version) {
    if a.major != b.major then a.major < b.major
    else if a.minor != b.minor then a.minor < b.minor
    else if a.patch != b.patch then a.patch < b.patch
    else PreLess(a.pre, b.pre)
  }

  predicate AtMost(a: Version, b: Version) { a == b || Less(a, b) }

  // ---- Precedence is a strict total order ----

  lemma {:induction false} IdentifierOrder(a: Identifier, b: Identifier, c: Identifier)
    ensures IdentifierLess(a, b) && IdentifierLess(b, c) ==> IdentifierLess(a, c)
    ensures !IdentifierLess(a, a)
    ensures a == b || IdentifierLess(a, b) || IdentifierLess(b, a)
  {
    if a.Alpha? {
      StringOrder(a.s, if b.Alpha? then b.s else [], if c.Alpha? then c.s else []);
    }
  }

  lemma {:induction false} IdentifiersOrder(a: seq<Identifier>, b: seq<Identifier>, c: seq<Identifier>)
    ensures IdentifiersLess(a, b) && IdentifiersLess(b, c) ==> IdentifiersLess(a, c)
    ensures !IdentifiersLess(a, a)
    ensures a == b || IdentifiersLess(a, b) || IdentifiersLess(b, a)
    decreases |a| + |b| + |c|
  {
    if a != [] {
      IdentifiersOrder(a[1..], if b == [] then [] else b[1..], if c == [] then [] else c[1..]);
      if b != [] {
        IdentifierOrder(a[0], b[0], if c == [] then a[0] else c[0]);
        if a[0] == b[0] && a[1..] == b[1..] {
          assert a == [a[0]] + a[1..] && b == [b[0]] + b[1..];
        }
      }
    }
  }

  lemma {:induction false} LessIsTotalOrder(a: Version, b: Version, c: Version)
    ensures Less(a, b) && Less(b, c) ==> Less(a, c)
    ensures !Less(a, a)
    ensures a == b || Less(a, b) || Less(b, a)
  {
    IdentifiersOrder(a.pre, b.pre, c.pre);
  }

  /** Items 11.2 and 11.3: major, minor and patch are compared in this order, as numbers; a pre-release precedes its
      release. As the order is total, this decides every pair but two pre-releases of one release. */
  lemma {:induction false} NumbersDecide(a: Version, b: Version)
    ensures a.major < b.major ==> Less(a, b) && !Less(b, a)
    ensures a.major == b.major && a.minor < b.minor ==> Less(a, b) && !Less(b, a)
    ensures a.major == b.major && a.minor == b.minor && a.patch < b.patch ==> Less(a, b) && !Less(b, a)
    ensures a.(pre := []) == b && a.pre != [] ==> Less(a, b) && !Less(b, a)
  {
  }

  /** Item 11.4: of two pre-releases of one release the first differing identifier decides: numbers by value, other
      identifiers in ASCII order, a number before any of those; without a difference, the shorter list precedes. */
  lemma {:induction false} IdentifiersDecide(v: Version, p: seq<Identifier>, x: Identifier, s: seq<Identifier>,
                                             y: Identifier, t: seq<Identifier>)
    requires x != y
    ensures Less(v.(pre := p + [x] + s), v.(pre := p + [y] + t))
            <==> match (x, y)
                 case (Numeric(n), Numeric(m)) => n < m
                 case (Numeric(_), Alpha(_)) => true
                 case (Alpha(_), Numeric(_)) => false
                 case (Alpha(w), Alpha(z)) => StringLess(w, z)
    ensures p != [] ==> Less(v.(pre := p), v.(pre := p + [y] + t))
  {
    IdentifiersAfter(p, x, s, y, t);
  }

  lemma {:induction false} IdentifiersAfter(p: seq<Identifier>, x: Identifier, s: seq<Identifier>, y: Identifier,
                                            t: seq<Identifier>)
    requires x != y
    ensures IdentifiersLess(p + [x] + s, p + [y] + t) <==> IdentifierLess(x, y)
    ensures IdentifiersLess(p, p + [y] + t)
    decreases |p|
  {
    var a, b := p + [x] + s, p + [y] + t;
    if p != [] {
      assert a[1..] == p[1..] + [x] + s && b[1..] == p[1..] + [y] + t;
      IdentifiersAfter(p[1..], x, s, y, t);
    }
  }

  // ---- Ranges ----

  /** The first version outside the range of v: the next major, or below 1.0.0 the next minor. */
  function Upper(v: Version): Version {
    if v.major > 0 then Version(v.major + 1, 0, 0, []) else Version(v.major, v.minor + 1, 0, [])
  }

  function Lower(v: Version): Version {
    var m := Upper(v);
    if v.major > 0 then m.(major := m.major - 1) else m.(minor := m.minor - 1)
  }

  /** v meets the requirement that w stands for. */
  predicate Meets(v: Version, w: Version) { AtMost(Lower(w), v) && Less(v, Upper(w)) }

  /** Same major version, and below 1.0.0 the same minor version too. */
  predicate SameClass(a: Version, b: Version) {
    a.major == b.major && (a.major == 0 ==> a.minor == b.minor)
  }

  /** A pre-release of the very first version of its class. */
  predicate Premature(v: Version) {
    v.pre != [] && v.patch == 0 && (v.major > 0 ==> v.minor == 0)
  }

  /** Only a premature pre-release misses its own range. */
  lemma {:induction false} MeetsItself(v: Version)
    ensures Meets(v, v) <==> !Premature(v)
  {
  }

  /** What a range holds: the versions of the class that are not premature, and the pre-releases of the first version
      outside of it. */
  lemma {:induction false} MeetsIff(v: Version, w: Version)
    ensures Meets(v, w)
            <==> (SameClass(v, w) && !Premature(v)) || (v.pre != [] && v.(pre := []) == FirstOutside(w))
  {
  }

  /** The first version of the next class. */
  function FirstOutside(w: Version): Version {
    if w.major == 0 then Version(0, w.minor + 1, 0, []) else Version(w.major + 1, 0, 0, [])
  }

  /** Two versions that meet their own ranges meet each other's exactly when they share a class. */
  lemma {:induction false} MeetsEachOther(a: Version, b: Version)
    requires !Premature(a) && !Premature(b)
    ensures SameClass(a, b) ==> Meets(a, b) && Meets(b, a)
    ensures Meets(a, b) && Meets(b, a) ==> SameClass(a, b)
  {
  }

  ghost predicate AllMeet(vs: seq<Version>) {
    forall i, j :: 0 <= i < |vs| && 0 <= j < |vs| ==> Meets(vs[i], vs[j])
  }

  /** When a list of versions is mutually compatible. */
  lemma {:induction false} AllMeetIff(vs: seq<Version>)
    ensures AllMeet(vs)
            <==> (forall i :: 0 <= i < |vs| ==> !Premature(vs[i]))
                 && (forall i, j :: 0 <= i < |vs| && 0 <= j < |vs| ==> SameClass(vs[i], vs[j]))
  {
    if AllMeet(vs) {
      forall i | 0 <= i < |vs| ensures !Premature(vs[i]) {
        assert Meets(vs[i], vs[i]);
        MeetsItself(vs[i]);
      }
      forall i, j | 0 <= i < |vs| && 0 <= j < |vs| ensures SameClass(vs[i], vs[j]) {
        assert Meets(vs[i], vs[j]) && Meets(vs[j], vs[i]);
        MeetsEachOther(vs[i], vs[j]);
      }
    } else {
      var i, j :| 0 <= i < |vs| && 0 <= j < |vs| && !Meets(vs[i], vs[j]);
      if !Premature(vs[i]) && !Premature(vs[j]) {
        MeetsEachOther(vs[i], vs[j]);
      }
    }
  }
}
