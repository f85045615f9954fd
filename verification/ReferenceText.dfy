/** What the rewriting makes of a line, written out: the text before a reference, the qualifier, the number. */
module ReferenceText {
  import opened References

  ghost predicate IsMarker(m: string) {
    m == ['#'] || (|m| == 3 && m[0] in {'g', 'G'} && m[1] in {'h', 'H'} && m[2] == '-')
  }

  ghost predicate IsNumber(d: string) { d != [] && forall i :: 0 <= i < |d| ==> IsDigit(d[i]) }

  /** The text begins at the end of a word. */
  predicate Boundary(rest: string) { rest == [] || !IsWord(rest[0]) }

  /** A marker and a number, up to a word boundary, are a reference. */
  lemma {:induction false} IsReference(m: string, d: string, rest: string)
    requires IsMarker(m) && IsNumber(d) && Boundary(rest)
    ensures var s := m + d + rest;
            Marker(s) == |m| && RefLen(s) == |m| + |d| && s[|m|..|m| + |d|] == d && s[|m| + |d|..] == rest
  {
    var s, n := m + d + rest, |m| + |d|;
    assert s[..|m|] == m;
    assert Marker(s) == |m| by {
      assert s[0] == m[0];
      assert |m| == 3 ==> s[1] == m[1] && s[2] == m[2];
    }
    forall i | |m| <= i < n ensures IsDigit(s[i]) {
      assert s[i] == d[i - |m|];
    }
    assert n < |s| ==> s[n] == rest[0];
    RefLenIff(s, n);
  }

  /** A reference at a place where it counts becomes the qualifier and its own number. */
  lemma {:induction false} NumberKept(q: string, keep: bool, m: string, d: string, rest: string)
    requires IsMarker(m) && IsNumber(d) && Boundary(rest)
    ensures Qualified(q, false, m + d + rest) == q + d + Qualified(q, true, rest)
    ensures Sub(q, keep, true, m + d + rest) == q + d + Sub(q, keep, false, rest)
  {
    IsReference(m, d, rest);
  }

  lemma {:induction false} Rejoin(a: string, b: string, c: string)
    ensures (a + b) + c == a + (b + c)
  {
  }

  lemma {:induction false} FirstOf(p: string, s: string)
    requires p != []
    ensures (p + s)[0] == p[0] && (p + s)[1..] == p[1..] + s && [p[0]] + (p[1..] + s) == p + s
  {
  }

  /** No reference begins at a non-word character that has no digit behind it. */
  lemma {:induction false} NoReferenceAt(c: char, t: string)
    requires !IsWord(c) && t != [] && !IsDigit(t[0])
    ensures RefLen([c] + t) == 0
  {
    RefParts([c] + t);
  }

  /** The part of the text before a reference that the template copies. */
  function Kept(keep: bool, p: string): string {
    if keep then p else if p == [] then [] else p[..|p| - 1]
  }

  /** After one non-word character, wherever that stands. */
  lemma {:induction false} NumberKeptInside(q: string, keep: bool, atStart: bool, p: string, m: string, d: string,
                                            rest: string)
    requires |p| == 1 && !IsWord(p[0]) && IsMarker(m) && IsNumber(d) && Boundary(rest)
    ensures Sub(q, keep, atStart, p + (m + d + rest)) == Kept(keep, p) + (q + d + Sub(q, keep, false, rest))
  {
    var t, tail := m + d + rest, Sub(q, keep, false, rest);
    IsReference(m, d, rest);
    FirstOf(p, t);
    NoReferenceAt(p[0], t);
    assert p == [p[0]] && p[1..] + t == t;
    assert Kept(keep, p) == if keep then [p[0]] else [];
    assert Rewritten(q, t) == q + d;
    assert Sub(q, keep, atStart, p + t) == (Kept(keep, p) + (q + d)) + tail;
    Rejoin(Kept(keep, p), q + d, tail);
  }

  /** No reference that counts begins in p, with s behind it. */
  predicate QuietUntil(afterWord: bool, p: string, s: string)
    decreases |p|
  {
    p == [] || ((afterWord || RefLen(p + s) == 0) && QuietUntil(IsWord(p[0]), p[1..], s))
  }

  lemma {:induction false} QualifiedCopies(q: string, afterWord: bool, s: string)
    requires s != [] && (afterWord || RefLen(s) == 0)
    ensures Qualified(q, afterWord, s) == [s[0]] + Qualified(q, IsWord(s[0]), s[1..])
  {
  }

  lemma {:induction false} SubCopiesOne(q: string, keep: bool, atStart: bool, s: string)
    requires s != [] && (atStart ==> RefLen(s) == 0) && (IsWord(s[0]) || RefLen(s[1..]) == 0)
    ensures Sub(q, keep, atStart, s) == [s[0]] + Sub(q, keep, false, s[1..])
  {
  }

  /** What stands before the first reference is copied. */
  lemma {:induction false} TextCopied(q: string, afterWord: bool, p: string, s: string)
    requires p != [] && QuietUntil(afterWord, p, s)
    ensures Qualified(q, afterWord, p + s) == p + Qualified(q, IsWord(p[|p| - 1]), s)
    decreases |p|
  {
    var out := Qualified(q, IsWord(p[|p| - 1]), s);
    FirstOf(p, s);
    QualifiedCopies(q, afterWord, p + s);
    FirstOf(p, out);
    if |p| == 1 {
      assert p[1..] + s == s && p[1..] + out == out;
    } else {
      TextCopied(q, IsWord(p[0]), p[1..], s);
    }
  }

  /** The last character before the reference is copied or not, the others always are. */
  lemma {:induction false} TextSubstituted(q: string, keep: bool, atStart: bool, afterWord: bool, p: string, m: string,
                                           d: string, rest: string)
    requires IsMarker(m) && IsNumber(d) && Boundary(rest) && p != [] && !IsWord(p[|p| - 1])
    requires QuietUntil(afterWord, p, m + d + rest) && (atStart ==> !afterWord)
    ensures Sub(q, keep, atStart, p + (m + d + rest)) == Kept(keep, p) + (q + d + Sub(q, keep, false, rest))
    decreases |p|
  {
    if |p| == 1 {
      NumberKeptInside(q, keep, atStart, p, m, d, rest);
    } else {
      SubstitutedBefore(q, keep, atStart, afterWord, p, m + d + rest);
      TextSubstituted(q, keep, false, IsWord(p[0]), p[1..], m, d, rest);
      KeptBefore(keep, p, q + d + Sub(q, keep, false, rest));
    }
  }

  lemma {:induction false} KeptBefore(keep: bool, p: string, out: string)
    requires |p| > 1
    ensures [p[0]] + (Kept(keep, p[1..]) + out) == Kept(keep, p) + out
  {
    assert [p[0]] + Kept(keep, p[1..]) == Kept(keep, p);
    Rejoin([p[0]], Kept(keep, p[1..]), out);
  }

  lemma {:induction false} SubstitutedBefore(q: string, keep: bool, atStart: bool, afterWord: bool, p: string,
                                             t: string)
    requires |p| > 1 && QuietUntil(afterWord, p, t) && (atStart ==> !afterWord)
    ensures QuietUntil(IsWord(p[0]), p[1..], t)
    ensures Sub(q, keep, atStart, p + t) == [p[0]] + Sub(q, keep, false, p[1..] + t)
  {
    FirstOf(p, t);
    SubCopiesOne(q, keep, atStart, p + t);
  }

  /** The line is p, then a reference of this number that counts, then the rest; in p there is none. What stands
      before the line may be a word character. */
  ghost predicate FirstReference(afterWord: bool, line: string, p: string, m: string, d: string, rest: string) {
    line == p + (m + d + rest) && IsMarker(m) && IsNumber(d) && Boundary(rest)
    && QuietUntil(afterWord, p, m + d + rest) && if p == [] then !afterWord else !IsWord(p[|p| - 1])
  }

  /** The reference keeps its number, and what stands before it is copied; the rest is again a line, after a word. */
  lemma {:induction false} LineKept(q: string, afterWord: bool, line: string, p: string, m: string, d: string,
                                    rest: string)
    requires FirstReference(afterWord, line, p, m, d, rest)
    ensures Qualified(q, afterWord, line) == p + (q + d + Qualified(q, true, rest))
  {
    NumberKept(q, true, m, d, rest);
    if p == [] {
      assert line == m + d + rest;
      var out := q + d + Qualified(q, true, rest);
      assert [] + out == out;
    } else {
      TextCopied(q, afterWord, p, m + d + rest);
    }
  }

  /** The same with a template that swallows a character. */
  lemma {:induction false} LineSwallowed(q: string, atStart: bool, line: string, p: string, m: string, d: string,
                                         rest: string)
    requires FirstReference(!atStart, line, p, m, d, rest)
    ensures Sub(q, false, atStart, line) == Kept(false, p) + (q + d + Sub(q, false, false, rest))
  {
    if p == [] {
      assert line == m + d + rest;
      NumberKept(q, false, m, d, rest);
      var out := q + d + Sub(q, false, false, rest);
      assert [] + out == out;
    } else {
      TextSubstituted(q, false, atStart, !atStart, p, m, d, rest);
    }
  }

  /** The first reference of a line of the log is qualified by organisation and name and keeps its number; what stands
      before it is copied, but for the character that an octal escape swallows; what follows is rewritten likewise. */
  lemma {:induction false} LineQualified(log: seq<string>, org: string, name: string, i: nat, p: string, m: string,
                                         d: string, rest: string)
    requires '\\' !in org && '\\' !in name && i < |log| && FirstReference(false, log[i], p, m, d, rest)
    requires QualifyReferences(log, org, name).Some?
    ensures org == [] || !IsDigit(org[0]) ==>
              var q := org + ['/'] + name + ['#'];
              QualifyReferences(log, org, name).value[i] == p + (q + d + Qualified(q, true, rest))
    ensures OctalEscape(org) ==>
              var q := [OctalChar(org[0], org[1])] + org[2..] + ['/'] + name + ['#'];
              QualifyReferences(log, org, name).value[i]
              == Kept(false, p) + (q + d + Sub(q, false, false, rest))
  {
    if OctalEscape(org) {
      LineSwallowed(TemplateOf(org, name).q, true, log[i], p, m, d, rest);
    } else {
      LineKept(Qualifier(org, name), false, log[i], p, m, d, rest);
    }
  }
}
