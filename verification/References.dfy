/** Qualification of GitHub references: `#27` and `GH-27` become `org/name#27`. */
module References {
  import opened Collections

  // ---- Characters ----

  predicate IsDigit(c: char) { '0' <= c <= '9' }

  predicate IsWord(c: char) { IsDigit(c) || 'a' <= c <= 'z' || 'A' <= c <= 'Z' || c == '_' }

  /** The ten digits, and the characters that the expression of the source counts as parts of a word, over ASCII. */
  lemma {:induction false} CharacterClasses(c: char)
    ensures IsDigit(c) <==> c in ['0', '1', '2', '3', '4', '5', '6', '7', '8', '9']
    ensures IsWord('_') && (IsDigit(c) ==> IsWord(c))
    ensures 'a' <= c <= 'z' || 'A' <= c <= 'Z' ==> IsWord(c)
    ensures IsWord(c) ==> IsDigit(c) || c == '_' || 'a' <= c <= 'z' || 'A' <= c <= 'Z'
  {
  }

  function DigitRun(s: string): (n: nat)
    ensures n <= |s|
  {
    if s == [] || !IsDigit(s[0]) then 0 else 1 + DigitRun(s[1..])
  }

  lemma {:induction false} DigitRunIs(s: string)
    ensures var n := DigitRun(s); (n < |s| ==> !IsDigit(s[n])) && forall i :: 0 <= i < n ==> IsDigit(s[i])
    decreases |s|
  {
    if s != [] && IsDigit(s[0]) {
      DigitRunIs(s[1..]);
      assert forall i :: 0 < i < DigitRun(s) ==> s[i] == s[1..][i - 1];
    }
  }

  // ---- What a reference is ----

  /** Length of the marker `#` or `gh-` (in any case) at the start of s. */
  function Marker(s: string): nat {
    if |s| >= 1 && s[0] == '#' then 1
    else if |s| >= 3 && (s[0] == 'g' || s[0] == 'G') && (s[1] == 'h' || s[1] == 'H') && s[2] == '-' then 3
    else 0
  }

  /** Length of the reference at the start of s: marker, digits, word boundary; 0 if there is none. */
  function RefLen(s: string): (n: nat)
    ensures n <= |s| && (n > 0 ==> n > Marker(s) > 0)
  {
    var m := Marker(s);
    if m == 0 then 0
    else
      var d := DigitRun(s[m..]);
      if d > 0 && (m + d == |s| || !IsWord(s[m + d])) then m + d else 0
  }

  /** The declarative reading: some digits after the marker, up to a word boundary. */
  lemma {:induction false} RefLenIff(s: string, n: nat)
    requires n > 0
    ensures RefLen(s) == n
            <==> Marker(s) > 0 && Marker(s) < n <= |s| && (forall i :: Marker(s) <= i < n ==> IsDigit(s[i]))
                 && (n == |s| || !IsWord(s[n]))
  {
    var m := Marker(s);
    if m > 0 {
      var d := DigitRun(s[m..]);
      DigitRunIs(s[m..]);
      assert forall i :: m <= i < m + d ==> s[i] == s[m..][i - m];
      assert m + d < |s| ==> s[m + d] == s[m..][d];
    }
  }

  // ---- The rewriting, position by position ----

  /** What stands before the digits of a qualified reference. */
  function Qualifier(org: string, name: string): string { org + "/" + name + "#" }

  /** The qualified form of the reference at the start of s. */
  function Rewritten(q: string, s: string): string
    requires RefLen(s) > 0
  {
    q + s[Marker(s)..RefLen(s)]
  }

  /** Rewrites every reference of s that is not preceded by a word character; `afterWord` says whether
      the character before s is one. */
  function Qualified(q: string, afterWord: bool, s: string): string
    decreases |s|
  {
    if s == [] then []
    else if !afterWord && RefLen(s) > 0 then
      Rewritten(q, s) + Qualified(q, true, s[RefLen(s)..])
    else [s[0]] + Qualified(q, IsWord(s[0]), s[1..])
  }

  // ---- The substitution, as a leftmost, non-overlapping search ----

  /** The substitution from some position on, s being the rest of the line: a match is either the line start or
      one non-word character, and then a reference; the text between matches is copied. `keep` says whether the
      template copies that character. */
  function Sub(q: string, keep: bool, atStart: bool, s: string): string
    decreases |s|
  {
    if s == [] then []
    else if atStart && RefLen(s) > 0 then Rewritten(q, s) + Sub(q, keep, false, s[RefLen(s)..])
    else
      var t := s[1..];
      if !IsWord(s[0]) && RefLen(t) > 0 then
        (if keep then [s[0]] else []) + Rewritten(q, t) + Sub(q, keep, false, t[RefLen(t)..])
      else [s[0]] + Sub(q, keep, false, t)
  }

  /** The search finds exactly the references that are not preceded by a word character. */
  lemma {:induction false} SubIsQualified(q: string, atStart: bool, afterWord: bool, s: string)
    requires atStart ==> !afterWord
    requires atStart || afterWord || RefLen(s) == 0
    ensures Sub(q, true, atStart, s) == Qualified(q, afterWord, s)
    decreases |s|
  {
    if s == [] {
    } else if atStart && RefLen(s) > 0 {
      SubIsQualified(q, false, true, s[RefLen(s)..]);
    } else {
      var t := s[1..];
      if !IsWord(s[0]) && RefLen(t) > 0 {
        SubIsQualified(q, false, true, t[RefLen(t)..]);
        var rest := Qualified(q, true, t[RefLen(t)..]);
        assert [s[0]] + Rewritten(q, t) + rest == [s[0]] + (Rewritten(q, t) + rest);
      } else {
        SubIsQualified(q, false, IsWord(s[0]), t);
      }
    }
  }

  predicate IsOctal(c: char) { '0' <= c <= '7' }

  /** What the replacement template amounts to. It writes the organisation right behind the back reference to the
      first group, and a digit there is read as part of that. */
  datatype Template =
    | Keeps(q: string)     // the character before the reference is copied, then comes q
    | Swallows(q: string)  // an octal escape: that character is dropped, and q begins with the escaped one
    | BadGroup             // a reference to a group that does not exist

  /** The organisation begins with two octal digits: with the 1 before them they make an octal escape. */
  predicate OctalEscape(org: string) { |org| > 1 && IsOctal(org[0]) && IsOctal(org[1]) }

  /** The character of the octal escape that a 1 and these two digits make. */
  function OctalChar(high: char, low: char): char
    requires IsOctal(high) && IsOctal(low)
  {
    (64 + 8 * (high as int - '0' as int) + (low as int - '0' as int)) as char
  }

  function TemplateOf(org: string, name: string): (t: Template)
    ensures t == Keeps(Qualifier(org, name)) <==> org == [] || !IsDigit(org[0])
    ensures t.BadGroup? <==> org != [] && IsDigit(org[0]) && !OctalEscape(org)
    ensures t.Swallows? <==> OctalEscape(org)
    ensures t.Swallows? ==> t.q == [OctalChar(org[0], org[1])] + org[2..] + "/" + name + "#"
                            && 64 <= t.q[0] as int < 128
  {
    if org == [] || !IsDigit(org[0]) then Keeps(Qualifier(org, name))
    else
      var rest := Qualifier(org[1..], name);
      if IsOctal(org[0]) && IsOctal(rest[0]) then
        assert rest[1..] == org[2..] + "/" + name + "#";
        Swallows([OctalChar(org[0], rest[0])] + rest[1..])
      else BadGroup
  }

  /** Rewrites every line of a log; None stands for the error that a bad template raises. Names hold no backslash. */
  function QualifyReferences(log: seq<string>, org: string, name: string): (r: Option<seq<string>>)
    requires '\\' !in org && '\\' !in name
    ensures r.None? <==> log != [] && org != [] && IsDigit(org[0]) && !OctalEscape(org)
    ensures r.Some? ==> |r.value| == |log|
    ensures r.Some? && (org == [] || !IsDigit(org[0])) ==>
              forall i :: 0 <= i < |log| ==> r.value[i] == Qualified(Qualifier(org, name), false, log[i])
    ensures r.Some? && OctalEscape(org) ==>
              forall i :: 0 <= i < |log| ==> r.value[i] == Sub(TemplateOf(org, name).q, false, true, log[i])
  {
    var t := TemplateOf(org, name);
    if log == [] then Some([])
    else if t.BadGroup? then None
    else
      assert t.Keeps? ==> forall i :: 0 <= i < |log| ==>
               Sub(t.q, true, true, log[i]) == Qualified(t.q, false, log[i]) by {
        if t.Keeps? {
          forall i | 0 <= i < |log| {
            SubIsQualified(t.q, true, false, log[i]);
          }
        }
      }
      Some(seq(|log|, i requires 0 <= i < |log| => Sub(t.q, t.Keeps?, true, log[i])))
  }

  // ---- Idempotence ----

  /** No reference in s would be rewritten. */
  predicate Settled(afterWord: bool, s: string)
    decreases |s|
  {
    s == [] || ((afterWord || RefLen(s) == 0) && Settled(IsWord(s[0]), s[1..]))
  }

  /** A rewritten reference makes the text longer, so only a text without one stays as it is. */
  lemma {:induction false} UnchangedIff(q: string, afterWord: bool, s: string)
    requires |q| > 3
    ensures |Qualified(q, afterWord, s)| >= |s|
    ensures Qualified(q, afterWord, s) == s <==> Settled(afterWord, s)
    decreases |s|
  {
    if s == [] {
    } else if !afterWord && RefLen(s) > 0 {
      UnchangedIff(q, true, s[RefLen(s)..]);
    } else {
      UnchangedIff(q, IsWord(s[0]), s[1..]);
      var rest := Qualified(q, IsWord(s[0]), s[1..]);
      assert ([s[0]] + rest)[1..] == rest;
      assert [s[0]] + s[1..] == s;
    }
  }

  /** Some digits, possibly none, up to a word boundary. */
  predicate DigitsEnd(s: string) {
    s == [] || !IsWord(s[0]) || (IsDigit(s[0]) && DigitsEnd(s[1..]))
  }

  lemma {:induction false} DigitsEndIff(s: string)
    ensures DigitsEnd(s) <==> DigitRun(s) == |s| || !IsWord(s[DigitRun(s)])
    decreases |s|
  {
    if s != [] && IsDigit(s[0]) {
      DigitsEndIff(s[1..]);
    }
  }

  lemma {:induction false} RefParts(s: string)
    ensures RefLen(s) > 0
            <==> Marker(s) > 0 && Marker(s) < |s| && IsDigit(s[Marker(s)]) && DigitsEnd(s[Marker(s) + 1..])
  {
    var m := Marker(s);
    if 0 < m < |s| && IsDigit(s[m]) {
      assert s[m..][1..] == s[m + 1..];
      DigitsEndIff(s[m..]);
      var d := DigitRun(s[m..]);
      assert m + d < |s| ==> s[m + d] == s[m..][d];
    }
  }

  /** Rewriting leaves the digits after a word character, and what ends them, alone. */
  lemma {:induction false} DigitsKept(q: string, s: string)
    ensures DigitsEnd(Qualified(q, true, s)) == DigitsEnd(s)
    decreases |s|
  {
    if s != [] {
      var out := Qualified(q, true, s);
      assert out[0] == s[0] && out[1..] == Qualified(q, IsWord(s[0]), s[1..]);
      if IsDigit(s[0]) {
        DigitsKept(q, s[1..]);
      }
    }
  }

  /** After a non-word character, rewriting does not bring in digits of its own. */
  lemma {:induction false} DigitsNotMade(q: string, s: string)
    requires q != [] && !IsDigit(q[0])
    requires var out := Qualified(q, false, s); out != [] && IsDigit(out[0]) && DigitsEnd(out[1..])
    ensures s != [] && IsDigit(s[0]) && DigitsEnd(s[1..])
  {
    var out := Qualified(q, false, s);
    if RefLen(s) > 0 {
      assert false;
    } else {
      assert out[0] == s[0] && out[1..] == Qualified(q, IsWord(s[0]), s[1..]);
      DigitsKept(q, s[1..]);
    }
  }

  lemma {:induction false} HashBeginsNone(q: string, s: string)
    requires q != [] && !IsDigit(q[0]) && s != [] && s[0] == '#' && RefLen(s) == 0
    ensures RefLen(['#'] + Qualified(q, false, s[1..])) == 0
  {
    var rest := Qualified(q, false, s[1..]);
    RefParts(['#'] + rest);
    if rest != [] {
      assert (['#'] + rest)[2..] == rest[1..];
      if IsDigit(rest[0]) && DigitsEnd(rest[1..]) {
        DigitsNotMade(q, s[1..]);
        assert s[1..][1..] == s[2..];
        RefParts(s);
      }
    }
  }

  /** A reference with the longer marker. */
  lemma {:induction false} LetterRefIff(s: string)
    requires s != [] && s[0] != '#'
    ensures RefLen(s) > 0 <==> Marker(s) == 3 && |s| > 3 && IsDigit(s[3]) && DigitsEnd(s[4..])
  {
    RefParts(s);
  }

  lemma {:induction false} FirstCopied(q: string, s: string)
    requires s != []
    ensures var out := Qualified(q, true, s);
            out != [] && out[0] == s[0] && out[1..] == Qualified(q, IsWord(s[0]), s[1..])
  {
  }

  /** Behind `gh-`, which is copied. */
  lemma {:induction false} LetterBeginsNone(q: string, s: string)
    requires q != [] && !IsDigit(q[0]) && s != [] && s[0] != '#' && RefLen(s) == 0
    ensures RefLen([s[0]] + Qualified(q, true, s[1..])) == 0
  {
    var t, rest := s[1..], Qualified(q, true, s[1..]);
    var out := [s[0]] + rest;
    LetterRefIff(out);
    LetterRefIff(s);
    if t != [] && |rest| > 1 && (t[0] == 'h' || t[0] == 'H') {
      FirstCopied(q, t);
      var u := t[1..];
      if u != [] && u[0] == '-' {
        FirstCopied(q, u);
        var tail := Qualified(q, false, u[1..]);
        assert out[3..] == tail && s[3..] == u[1..];
        if tail != [] && IsDigit(tail[0]) && DigitsEnd(tail[1..]) {
          DigitsNotMade(q, u[1..]);
          assert s[4..] == u[1..][1..];
        } else {
          assert tail != [] ==> out[4..] == tail[1..];
        }
      }
    }
  }

  /** A character copied because no reference begins there still begins none in the rewritten text. */
  lemma {:induction false} CopiedBeginsNone(q: string, s: string)
    requires q != [] && !IsDigit(q[0]) && s != [] && RefLen(s) == 0
    ensures RefLen([s[0]] + Qualified(q, IsWord(s[0]), s[1..])) == 0
  {
    if s[0] == '#' {
      HashBeginsNone(q, s);
    } else if IsWord(s[0]) {
      LetterBeginsNone(q, s);
    }
  }

  // ---- The inserted qualifier ----

  lemma {:induction false} DigitsEndLocal(p: string, x: string, y: string)
    requires p != [] && !IsWord(p[|p| - 1])
    ensures DigitsEnd(p + x) == DigitsEnd(p + y)
  {
    if IsWord(p[0]) {
      assert (p + x)[1..] == p[1..] + x && (p + y)[1..] == p[1..] + y;
      DigitsEndLocal(p[1..], x, y);
    }
  }

  /** Whether a reference begins in a text that ends in `#`, before that `#`, is settled by that text. */
  lemma {:induction false} RefLocal(p: string, x: string, y: string)
    requires |p| > 1 && p[|p| - 1] == '#'
    ensures RefLen(p + x) > 0 <==> RefLen(p + y) > 0
  {
    RefParts(p + x);
    RefParts(p + y);
    var m := Marker(p);
    assert Marker(p + x) == m == Marker(p + y);
    if 0 < m {
      assert m < |p|;
      if m + 1 < |p| {
        assert (p + x)[m + 1..] == p[m + 1..] + x && (p + y)[m + 1..] == p[m + 1..] + y;
        DigitsEndLocal(p[m + 1..], x, y);
      }
    }
  }

  lemma {:induction false} SettledStep(afterWord: bool, p: string, x: string)
    requires p != []
    ensures Settled(afterWord, p + x) <==> (afterWord || RefLen(p + x) == 0) && Settled(IsWord(p[0]), p[1..] + x)
  {
    assert (p + x)[1..] == p[1..] + x;
  }

  /** What follows the qualifier may be exchanged for any settled text. */
  lemma {:induction false} QualifierStaysSettled(afterWord: bool, p: string, x: string, y: string)
    requires p != [] && p[|p| - 1] == '#' && RefLen(['#'] + x) > 0
    requires Settled(afterWord, p + x) && Settled(false, y)
    ensures Settled(afterWord, p + y)
    decreases |p|
  {
    SettledStep(afterWord, p, x);
    SettledStep(afterWord, p, y);
    if |p| == 1 {
      assert p == ['#'] && p[1..] + y == y;
    } else {
      RefLocal(p, x, y);
      QualifierStaysSettled(IsWord(p[0]), p[1..], x, y);
    }
  }

  lemma {:induction false} DigitsAreSettled(afterWord: bool, digits: string, rest: string)
    requires digits != [] && (forall i :: 0 <= i < |digits| ==> IsDigit(digits[i])) && Settled(true, rest)
    ensures Settled(afterWord, digits + rest)
    decreases |digits|
  {
    assert (digits + rest)[1..] == digits[1..] + rest;
    if |digits| > 1 {
      DigitsAreSettled(true, digits[1..], rest);
    } else {
      assert digits[1..] + rest == rest;
    }
  }

  /** The qualifier, standing at a line start with a number after it, holds no reference before that number. */
  predicate Inert(q: string) { Settled(false, q + ['0']) }

  lemma {:induction false} RewrittenIsSettled(q: string, s: string, rest: string)
    requires q != [] && q[|q| - 1] == '#' && Inert(q)
    requires RefLen(s) > 0 && Settled(true, rest)
    ensures Settled(false, Rewritten(q, s) + rest)
  {
    var m, n := Marker(s), RefLen(s);
    RefLenIff(s, n);
    var digits := s[m..n];
    DigitsAreSettled(false, digits, rest);
    RefLenIff(['#', '0'], 2);
    assert ['#'] + ['0'] == ['#', '0'];
    QualifierStaysSettled(false, q, ['0'], digits + rest);
    assert Rewritten(q, s) + rest == q + (digits + rest);
  }

  /** With an inert qualifier, a rewritten text has nothing left to rewrite. */
  lemma {:induction false} RewritingSettles(q: string, afterWord: bool, s: string)
    requires q != [] && q[|q| - 1] == '#' && !IsDigit(q[0]) && Inert(q)
    ensures Settled(afterWord, Qualified(q, afterWord, s))
    decreases |s|
  {
    if s == [] {
    } else if !afterWord && RefLen(s) > 0 {
      RewritingSettles(q, true, s[RefLen(s)..]);
      RewrittenIsSettled(q, s, Qualified(q, true, s[RefLen(s)..]));
    } else {
      RewritingSettles(q, IsWord(s[0]), s[1..]);
      var rest := Qualified(q, IsWord(s[0]), s[1..]);
      assert ([s[0]] + rest)[1..] == rest;
      if !afterWord {
        CopiedBeginsNone(q, s);
      }
    }
  }

  ghost predicate Idempotent(q: string, keep: bool) {
    forall line: string :: Sub(q, keep, true, Sub(q, keep, true, line)) == Sub(q, keep, true, line)
  }

  /** Qualifying a second time changes nothing on any line, exactly when the qualifier is inert. */
  lemma {:induction false} IdempotentIff(org: string, name: string)
    requires org != [] && name != [] && TemplateOf(org, name).Keeps?
    ensures Idempotent(Qualifier(org, name), true) <==> Inert(Qualifier(org, name))
  {
    var q := Qualifier(org, name);
    assert q[0] == org[0] && q[|q| - 1] == '#' && |q| > 3;
    if Inert(q) {
      forall line: string ensures Sub(q, true, true, Sub(q, true, true, line)) == Sub(q, true, true, line) {
        SubIsQualified(q, true, false, line);
        var once := Qualified(q, false, line);
        SubIsQualified(q, true, false, once);
        RewritingSettles(q, false, line);
        UnchangedIff(q, false, once);
      }
    }
    if Idempotent(q, true) {
      var line := ['#', '0'];
      RefLenIff(line, 2);
      SubIsQualified(q, true, false, line);
      var once := Qualified(q, false, line);
      assert once == q + ['0'];
      SubIsQualified(q, true, false, once);
      UnchangedIff(q, false, once);
    }
  }

  predicate AllWord(s: string) { forall i :: 0 <= i < |s| ==> IsWord(s[i]) }

  lemma {:induction false} WordsAreSettled(afterWord: bool, w: string, rest: string)
    requires AllWord(w) && w != [] && rest != [] && !IsWord(rest[0]) && rest[0] != '-'
    requires Settled(true, rest)
    ensures Settled(afterWord, w + rest)
    decreases |w|
  {
    assert (w + rest)[1..] == w[1..] + rest;
    assert Marker(w + rest) == 0;
    if |w| > 1 {
      WordsAreSettled(true, w[1..], rest);
    } else {
      assert w[1..] + rest == rest;
    }
  }

  /** Names of word characters only make an inert qualifier. */
  lemma {:induction false} PlainNamesAreInert(org: string, name: string)
    requires AllWord(org) && AllWord(name) && org != [] && name != []
    ensures Inert(Qualifier(org, name))
  {
    var tail := ['#', '0'];
    assert tail[1..] == ['0'] && ['0'][1..] == [];
    WordsAreSettled(false, name, tail);
    var middle := ['/'] + (name + tail);
    assert middle[1..] == name + tail;
    WordsAreSettled(false, org, middle);
    assert Qualifier(org, name) + ['0'] == org + middle;
  }

  /** Behind a non-word character, any reference is one that would be rewritten. */
  lemma {:induction false} NotSettled(afterWord: bool, p: string, s: string)
    requires p != [] && !IsWord(p[|p| - 1]) && RefLen(s) > 0
    ensures !Settled(afterWord, p + s)
    decreases |p|
  {
    SettledStep(afterWord, p, s);
    if |p| > 1 {
      NotSettled(IsWord(p[0]), p[1..], s);
    } else {
      assert p[1..] + s == s;
    }
  }

  /** A name that ends in `-`, or is `gh-` and a number, does not: its lines are rewritten again each time. */
  lemma {:induction false} DashedNamesAreNot(org: string, name: string)
    requires name != []
    requires name[|name| - 1] == '-' || RefLen(name) == |name|
    ensures !Inert(Qualifier(org, name))
  {
    var q := Qualifier(org, name) + ['0'];
    var tail := ['#', '0'];
    if name[|name| - 1] == '-' {
      RefLenIff(tail, 2);
      assert q == (org + "/" + name) + tail;
      NotSettled(false, org + "/" + name, tail);
    } else {
      RefLenIff(name, |name|);
      RefLenIff(name + tail, |name|);
      assert q == (org + "/") + (name + tail);
      NotSettled(false, org + "/", name + tail);
    }
  }
}
