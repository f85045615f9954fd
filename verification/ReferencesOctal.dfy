/** The replacement of references when the organisation begins with two octal digits, so that the template swallows the
    character before the reference: when a second replacement changes nothing. */
module ReferencesOctal {
  import opened References

  /** What is known of a template that begins with an escaped character: that character is no digit and no dash, and the
      shortest text is the character, a slash, a name of one letter and `#`. */
  ghost predicate Escaped(q: string) {
    |q| > 3 && !IsDigit(q[0]) && q[0] != '-' && q[|q| - 1] == '#' && (|q| == 4 ==> q[1] == '/')
  }

  /** Copying the first character of s is what the substitution does. */
  predicate Copies(s: string) { s != [] && (IsWord(s[0]) || RefLen(s[1..]) == 0) }

  lemma {:induction false} SubCopies(q: string, s: string)
    requires Copies(s)
    ensures var out := Sub(q, false, false, s);
            out != [] && out[0] == s[0] && out[1..] == Sub(q, false, false, s[1..])
  {
  }

  lemma {:induction false} SubReplaces(q: string, s: string)
    requires s != [] && !Copies(s) && q != []
    ensures var t := s[1..];
            RefLen(t) > 0 && Sub(q, false, false, s) == Rewritten(q, t) + Sub(q, false, false, t[RefLen(t)..])
    ensures Sub(q, false, false, s)[0] == q[0]
  {
    assert [] + Rewritten(q, s[1..]) == Rewritten(q, s[1..]);
  }

  // ---- A settled text stays as it is, and no other does ----

  lemma {:induction false} LongerAtStart(q: string, s: string, rest: string)
    requires Escaped(q) && RefLen(s) > 0 && |rest| >= |s| - RefLen(s)
    ensures |Rewritten(q, s) + rest| > |s|
  {
  }

  /** With the character before it, a reference is never what it is replaced by. */
  lemma {:induction false} OtherInside(q: string, s: string, rest: string)
    requires Escaped(q) && s != [] && RefLen(s[1..]) > 0 && |rest| >= |s| - 1 - RefLen(s[1..])
    ensures |Rewritten(q, s[1..]) + rest| >= |s| && Rewritten(q, s[1..]) + rest != s
  {
    if |Rewritten(q, s[1..]) + rest| == |s| {
      assert s[1] == s[1..][0] && (Rewritten(q, s[1..]) + rest)[1] == q[1];
    }
  }

  lemma {:induction false} UnchangedSub(q: string, atStart: bool, afterWord: bool, s: string)
    requires Escaped(q) && (atStart ==> !afterWord) && (atStart || afterWord || RefLen(s) == 0)
    ensures |Sub(q, false, atStart, s)| >= |s|
    ensures Sub(q, false, atStart, s) == s <==> Settled(afterWord, s)
    decreases |s|
  {
    if s == [] {
    } else if atStart && RefLen(s) > 0 {
      UnchangedSub(q, false, true, s[RefLen(s)..]);
      LongerAtStart(q, s, Sub(q, false, false, s[RefLen(s)..]));
    } else if !Copies(s) {
      var t := s[1..];
      UnchangedSub(q, false, true, t[RefLen(t)..]);
      OtherInside(q, s, Sub(q, false, false, t[RefLen(t)..]));
      assert [] + Rewritten(q, t) == Rewritten(q, t);
    } else {
      UnchangedSub(q, false, IsWord(s[0]), s[1..]);
      assert [s[0]] + s[1..] == s;
      assert ([s[0]] + Sub(q, false, false, s[1..]))[1..] == Sub(q, false, false, s[1..]);
    }
  }

  // ---- Copied text ----

  lemma {:induction false} DigitsEndKept(q: string, s: string)
    requires Escaped(q) && DigitsEnd(Sub(q, false, false, s))
    ensures DigitsEnd(s)
    decreases |s|
  {
    if s != [] && IsWord(s[0]) {
      SubCopies(q, s);
      DigitsEndKept(q, s[1..]);
    }
  }

  ghost predicate NumberFirst(s: string) { s != [] && IsDigit(s[0]) && DigitsEnd(s[1..]) }

  lemma {:induction false} NumberNotMade(q: string, s: string)
    requires Escaped(q) && NumberFirst(Sub(q, false, false, s))
    ensures NumberFirst(s)
  {
    if Copies(s) {
      SubCopies(q, s);
      DigitsEndKept(q, s[1..]);
    } else {
      SubReplaces(q, s);
    }
  }

  lemma {:induction false} HashRefIff(s: string)
    ensures RefLen(['#'] + s) > 0 <==> NumberFirst(s)
  {
    RefParts(['#'] + s);
    if s != [] {
      assert (['#'] + s)[2..] == s[1..];
    }
  }

  lemma {:induction false} LetterRef(c: char, s: string)
    requires c != '#'
    ensures RefLen([c] + s) > 0
            <==> (c == 'g' || c == 'G') && |s| > 1 && (s[0] == 'h' || s[0] == 'H') && s[1] == '-' && NumberFirst(s[2..])
  {
    var r := [c] + s;
    LetterRefIff(r);
    if |s| > 2 {
      assert r[4..] == s[3..] == s[2..][1..];
    }
  }

  /** A `g` at the end of the text before does not make a reference out of the qualifier. */
  predicate Unjoined(q: string) { RefLen(['g'] + q + ['0']) == 0 }

  lemma {:induction false} NotJoined(q: string, c: char, rest: string)
    requires Escaped(q) && Unjoined(q) && c != '#'
    ensures RefLen([c] + (q + rest)) == 0
  {
    assert ['g'] + (q + rest) == (['g'] + q) + rest;
    RefLocal(['g'] + q, rest, ['0']);
    LetterRef(c, q + rest);
    LetterRef('g', q + rest);
  }

  lemma {:induction false} DashCopied(q: string, u: string)
    requires Escaped(q) && u != []
    ensures var out := Sub(q, false, false, u);
            out != [] && (out[0] == '-' && NumberFirst(out[1..]) ==> u[0] == '-' && NumberFirst(u[1..]))
  {
    if Copies(u) {
      SubCopies(q, u);
      if NumberFirst(Sub(q, false, false, u[1..])) {
        NumberNotMade(q, u[1..]);
      }
    } else {
      SubReplaces(q, u);
    }
  }

  lemma {:induction false} LetterThenCopied(q: string, c: char, t: string)
    requires Escaped(q) && c != '#' && Copies(t) && RefLen([c] + Sub(q, false, false, t)) > 0
    ensures RefLen([c] + t) > 0
  {
    var out := Sub(q, false, false, t);
    LetterRef(c, out);
    SubCopies(q, t);
    var u := t[1..];
    assert out[1..][1..] == out[2..] && out[1] == out[1..][0];
    if u != [] {
      DashCopied(q, u);
      assert u[1..] == t[2..] && u[0] == t[1];
    }
    LetterRef(c, t);
  }

  /** A replaced reference, taken apart behind the qualifier. */
  lemma {:induction false} RewrittenParts(q: string, u: string, rest: string) returns (more: string)
    requires RefLen(u) > 0
    ensures Rewritten(q, u) + rest == q + more
  {
    var digits := u[Marker(u)..RefLen(u)];
    more := digits + rest;
    assert (q + digits) + rest == q + (digits + rest);
  }

  lemma {:induction false} LetterThenReplaced(q: string, c: char, t: string)
    requires Escaped(q) && Unjoined(q) && c != '#' && t != [] && !Copies(t)
    ensures RefLen([c] + Sub(q, false, false, t)) == 0
  {
    SubReplaces(q, t);
    var u := t[1..];
    var more := RewrittenParts(q, u, Sub(q, false, false, u[RefLen(u)..]));
    NotJoined(q, c, more);
  }

  /** A copied letter begins no reference. */
  lemma {:induction false} LetterCopied(q: string, c: char, t: string)
    requires Escaped(q) && Unjoined(q) && c != '#' && RefLen([c] + t) == 0
    ensures RefLen([c] + Sub(q, false, false, t)) == 0
  {
    if Copies(t) {
      if RefLen([c] + Sub(q, false, false, t)) > 0 {
        LetterThenCopied(q, c, t);
      }
    } else if t != [] {
      LetterThenReplaced(q, c, t);
    }
  }

  lemma {:induction false} CopiedSettles(q: string, s: string)
    requires Escaped(q) && Unjoined(q) && s != [] && RefLen(s) == 0
    ensures RefLen([s[0]] + Sub(q, false, false, s[1..])) == 0
  {
    assert [s[0]] + s[1..] == s;
    if s[0] == '#' {
      HashRefIff(s[1..]);
      HashRefIff(Sub(q, false, false, s[1..]));
      if NumberFirst(Sub(q, false, false, s[1..])) {
        NumberNotMade(q, s[1..]);
      }
    } else {
      LetterCopied(q, s[0], s[1..]);
    }
  }

  /** With such a qualifier, a rewritten text has nothing left to rewrite. */
  lemma {:induction false} SwallowingSettles(q: string, atStart: bool, afterWord: bool, s: string)
    requires Escaped(q) && Inert(q) && Unjoined(q)
    requires (atStart ==> !afterWord) && (atStart || afterWord || RefLen(s) == 0)
    ensures Settled(afterWord, Sub(q, false, atStart, s))
    decreases |s|
  {
    if s == [] {
    } else if atStart && RefLen(s) > 0 {
      SwallowingSettles(q, false, true, s[RefLen(s)..]);
      RewrittenIsSettled(q, s, Sub(q, false, false, s[RefLen(s)..]));
    } else if !Copies(s) {
      var t := s[1..];
      SwallowingSettles(q, false, true, t[RefLen(t)..]);
      RewrittenIsSettled(q, t, Sub(q, false, false, t[RefLen(t)..]));
      assert [] + Rewritten(q, t) == Rewritten(q, t);
    } else {
      var rest := Sub(q, false, false, s[1..]);
      SwallowingSettles(q, false, IsWord(s[0]), s[1..]);
      assert ([s[0]] + rest)[1..] == rest;
      if !afterWord {
        CopiedSettles(q, s);
      }
    }
  }

  // ---- When the replacement is idempotent ----

  lemma {:induction false} EscapedTemplate(org: string, name: string)
    requires OctalEscape(org) && name != []
    ensures Escaped(TemplateOf(org, name).q)
  {
    var q := TemplateOf(org, name).q;
    assert q[1..][|q| - 2] == '#';
    if |q| == 4 {
      assert q[1] == q[1..][0];
    }
  }

  /** The line is rewritten to this text, which a further replacement leaves as it is only if it is settled. */
  lemma {:induction false} SettledAfter(q: string, line: string, once: string)
    requires Escaped(q) && Idempotent(q, false) && once == Sub(q, false, true, line)
    ensures Settled(false, once)
  {
    UnchangedSub(q, true, false, once);
  }

  lemma {:induction false} TwoLines(q: string)
    requires Escaped(q)
    ensures Sub(q, false, true, ['#', '0']) == q + ['0']
    ensures Sub(q, false, true, ['g', ' ', '#', '0']) == ['g'] + q + ['0']
  {
    var ref, line := ['#', '0'], ['g', ' ', '#', '0'];
    RefLenIff(ref, 2);
    assert Rewritten(q, ref) == q + ['0'] && ref[2..] == [];
    assert q + ['0'] + [] == q + ['0'];
    var t := line[1..];
    assert t == [' ', '#', '0'] && t[1..] == ref && !Copies(t);
    SubReplaces(q, t);
    LetterRef('g', t);
    assert line == ['g'] + t;
    assert ['g'] + (q + ['0']) == ['g'] + q + ['0'];
  }

  /** With an organisation that begins with two octal digits, qualifying twice equals qualifying once on every line,
      exactly when the qualifier is inert and no `g` before it makes a reference of it. */
  lemma {:induction false} SwallowingIdempotentIff(org: string, name: string)
    requires OctalEscape(org) && name != []
    ensures var q := TemplateOf(org, name).q;
            Idempotent(q, false) <==> Inert(q) && Unjoined(q)
  {
    var q := TemplateOf(org, name).q;
    EscapedTemplate(org, name);
    if Inert(q) && Unjoined(q) {
      forall line: string ensures Sub(q, false, true, Sub(q, false, true, line)) == Sub(q, false, true, line) {
        SwallowingSettles(q, true, false, line);
        UnchangedSub(q, true, false, Sub(q, false, true, line));
      }
    }
    if Idempotent(q, false) {
      TwoLines(q);
      SettledAfter(q, ['#', '0'], q + ['0']);
      SettledAfter(q, ['g', ' ', '#', '0'], ['g'] + q + ['0']);
    }
  }

  /** The organisation `50-5` becomes `h-5`, so a `g` in front of a replaced reference makes a new one. */
  lemma {:induction false} JoinedOrganisation(org: string, name: string)
    requires org == ['5', '0', '-', '5'] && name != []
    ensures OctalEscape(org) && !Unjoined(TemplateOf(org, name).q)
    ensures !Idempotent(TemplateOf(org, name).q, false)
  {
    var q := TemplateOf(org, name).q;
    assert q[0] as int == 104;
    var tail := q + ['0'];
    assert tail[1] == q[1..][0] && tail[2] == q[1..][1] && tail[3] == q[1..][2] == '/';
    assert tail[2..][1..] == tail[3..];
    LetterRef('g', tail);
    assert ['g'] + tail == ['g'] + q + ['0'];
    SwallowingIdempotentIff(org, name);
  }
}
