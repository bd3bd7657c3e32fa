/** Path names: what the token of a path is, for the characters delivered and for the text they come from. */
module ScannerPath {
  import opened ScannerInput
  import opened ScannerToken
  import opened ScannerComments
  import opened ScannerMunch
  import Expansion = ScannerExpansion

  // ----- path names

  predicate PathChars(w: string) { forall k :: 0 <= k < |w| ==> PathChar(w[k]) }

  /** A slash and characters of a path, behind any characters of a keyword. */
  predicate PathPart(w: string) {
    w != "" && (if w[0] == '/' then PathChars(w[1..]) else WordChar(w[0]) && PathPart(w[1..]))
  }

  /** A path name starts with a slash, or with a keyword that goes on with a slash. */
  predicate PathName(w: string) {
    PathPart(w) && (w[0] == '/' || Letter(w[0]))
  }

  // ----- the characters delivered

  /** Calls of GetCharacter deliver the characters of w one after the other and leave r. */
  ghost predicate Yields(g: Setting, i: Input, w: string, r: Input)
    decreases |w|
  {
    if w == "" then r == i
    else AtRest(i) && Get(g, i).examine == w[0] && Yields(g, Get(g, i), w[1..], r)
  }

  /** The setting in which everything but a quoted string is scanned. */
  function Usual(src: Source): Setting {
    Setting(src.params, src.memory, true, true)
  }

  /** The automaton in the middle of a token, with b kept. */
  predicate Building(l: Lexer, state: State, b: string) {
    l.Valid() && l.state == state && l.buffer == Cut(b) && l.comments && l.substitutions
  }

  lemma CutMore(b: string, c: char)
    ensures (if |Cut(b)| < 256 then Cut(b) + [c] else Cut(b)) == Cut(b + [c])
  {
  }

  /** One more character of the token is kept. */
  lemma OneKept(src: Source, l: Lexer, from: State, b: string, c: char, state: State)
    requires (from == IsPathName && PathChar(c) && state == IsPathName) ||
             (from == IsKeyWord && WordChar(c) && state == IsKeyWord) ||
             (from == IsKeyWord && c == '/' && state == IsPathName)
    requires Building(l, from, b) && Get(Usual(src), l.input).examine == c
    ensures var n := l.(input := Get(Usual(src), l.input), buffer := Cut(b + [c]), state := state);
            Building(n, state, b + [c]) && GetToken(src, l) == GetToken(src, n)
  {
    hide Get, IsPathChar, IsKeyChar, IsLetter;
    ClassesAgree(c);
    CutMore(b, c);
    LexStepValid(src, l);
  }

  /** A character that is not part of a path ends it, and is put back. */
  lemma PathEnds(src: Source, l: Lexer, b: string, c: char)
    requires Building(l, IsPathName, b) && !PathChar(c) && Get(Usual(src), l.input).examine == c
    ensures GetToken(src, l) ==
            Emit(Lexer(SeparatorOrError, Get(Usual(src), l.input).(pushed := true), "", true, true), Token(String, Cut(b)))
  {
    hide Get, IsPathChar, IsKeyChar;
    ClassesAgree(c);
  }

  /** Behind the slash. */
  lemma {:induction false} PathGoesOn(src: Source, l: Lexer, b: string, w: string, c: char, r: Input)
    requires Building(l, IsPathName, b) && PathChars(w) && !PathChar(c) && Yields(Usual(src), l.input, w + [c], r)
    ensures GetToken(src, l) ==
            Emit(Lexer(SeparatorOrError, r.(pushed := true), "", true, true), Token(String, Cut(b + w)))
    decreases |w|
  {
    hide Get, GetToken, Building, Cut, PathChar;
    YieldsFirst(Usual(src), l.input, w, c, r);
    if w == "" {
      PathEnds(src, l, b, c);
      assert b + w == b;
    } else {
      OneKept(src, l, IsPathName, b, w[0], IsPathName);
      var n := l.(input := Get(Usual(src), l.input), buffer := Cut(b + [w[0]]), state := IsPathName);
      PathGoesOn(src, n, b + [w[0]], w[1..], c, r);
      assert b + w == b + [w[0]] + w[1..];
    }
  }

  lemma YieldsFirst(g: Setting, i: Input, w: string, c: char, r: Input)
    requires Yields(g, i, w + [c], r)
    ensures AtRest(i) && Get(g, i).examine == if w == "" then c else w[0]
    ensures if w == "" then r == Get(g, i) else Yields(g, Get(g, i), w[1..] + [c], r)
  {
    hide Get;
    if w != "" {
      assert (w + [c])[1..] == w[1..] + [c];
    }
  }

  /** In front of the slash. */
  lemma {:induction false} WordGoesOn(src: Source, l: Lexer, b: string, w: string, c: char, r: Input)
    requires Building(l, IsKeyWord, b) && PathPart(w) && !PathChar(c) && Yields(Usual(src), l.input, w + [c], r)
    ensures GetToken(src, l) ==
            Emit(Lexer(SeparatorOrError, r.(pushed := true), "", true, true), Token(String, Cut(b + w)))
    decreases |w|
  {
    hide Get, GetToken, Building, Cut, PathChar, WordChar;
    YieldsFirst(Usual(src), l.input, w, c, r);
    var state := if w[0] == '/' then IsPathName else IsKeyWord;
    OneKept(src, l, IsKeyWord, b, w[0], state);
    var n := l.(input := Get(Usual(src), l.input), buffer := Cut(b + [w[0]]), state := state);
    if w[0] == '/' {
      PathGoesOn(src, n, b + [w[0]], w[1..], c, r);
    } else {
      WordGoesOn(src, n, b + [w[0]], w[1..], c, r);
    }
    assert b + w == b + [w[0]] + w[1..];
  }

  /** The first character of a path name. */
  lemma PathStarts(src: Source, l: Lexer, c: char)
    requires l.Valid() && l.state == Start && Get(Usual(src), l.input).examine == c
    requires c == '/' || Letter(c)
    ensures var n := Lexer(if c == '/' then IsPathName else IsKeyWord, Get(Usual(src), l.input), [c], true, true);
            Building(n, n.state, [c]) && GetToken(src, l) == GetToken(src, n)
  {
    hide Get, IsPathChar, IsKeyChar, IsSeparator, AtSign, InNumber, AtSeparator, InWord, InString, InRun;
    LexStepValid(src, l);
    var n := Lexer(if c == '/' then IsPathName else IsKeyWord, Get(Usual(src), l.input), [c], true, true);
    assert LexStep(src, l) == Go(n);
  }

  /**
   * At the start of a token, when the characters delivered next are those of a path name and one that cannot be part of a
   * path, be they from the text, from parameters or from behind a comment: one call gives a String token with exactly the
   * path name, cut off at 256 characters, and puts the character behind it back.
   */
  lemma PathNameToken(src: Source, l: Lexer, w: string, c: char, r: Input)
    requires l.Valid() && l.state == Start && PathName(w) && !PathChar(c) && Yields(Usual(src), l.input, w + [c], r)
    ensures GetToken(src, l) ==
            Emit(Lexer(SeparatorOrError, r.(pushed := true), "", true, true),
                 Token(String, if |w| <= 256 then w else w[..256]))
  {
    hide Get, GetToken, Building, PathChar, WordChar;
    YieldsFirst(Usual(src), l.input, w, c, r);
    PathStarts(src, l, w[0]);
    var n := Lexer(if w[0] == '/' then IsPathName else IsKeyWord, Get(Usual(src), l.input), [w[0]], true, true);
    assert [w[0]] + w[1..] == w;
    if w[0] == '/' {
      PathGoesOn(src, n, [w[0]], w[1..], c, r);
    } else {
      WordGoesOn(src, n, [w[0]], w[1..], c, r);
    }
  }

  // ----- the text they come from

  /** The next call delivers what stands at s: the input stands there, or a character was read from there and put back. */
  predicate Upcoming(i: Input, s: Contexts) {
    if !i.pushed then Expansion.StandsAt(i, s)
    else
      && s[0].Rest() != "" && i.examine == s[0].Rest()[0] && Expansion.StandsAt(i.(pushed := false), Skipped(s, 1))
      && i.next !in {'/', '$', NUL} && (i.injected <==> i.state == Normal2)
  }

  /** Characters of path names and keywords mean nothing to the input, except for the slash. */
  predicate Bland(c: char) { PathChar(c) || c == '#' }

  /** A '/' is followed by something that does not make it the start of a comment. */
  predicate Slashes(w: string, c: char) {
    w != "" && w[|w| - 1] == '/' ==> c != '*' && c != NUL
  }

  lemma {:induction false} TextYields(g: Setting, i: Input, s: Contexts, w: string, c: char) returns (r: Input)
    requires g.comments && g.substitutions && Expansion.StandsAt(i, s)
    requires |w| <= |s[0].Rest()| && s[0].Rest()[..|w|] == w && (forall k :: 0 <= k < |w| ==> Bland(w[k]))
    requires Fetch(Skipped(s, |w|)).ch == c && c != '/' && c != '$' && Slashes(w, c)
    ensures Yields(g, i, w + [c], r) && !r.pushed
    ensures if c == NUL then r.state == InputState.EndState
            else Expansion.StandsAt(r, Fetch(Skipped(s, |w|)).stack) && r.state == Normal && r.next == c
    decreases |w|
  {
    hide Get, Fetch, Yields, Bland;
    if w == "" {
      assert Skipped(s, 0) == s;
      if c == NUL {
        Expansion.EndDelivered(g, i, s);
      } else {
        Expansion.PlainDelivered(g, i, s);
      }
      r := Get(g, i);
      YieldsLast(g, i, c);
    } else {
      var next := if |w| == 1 then c else w[1];
      TextStep(g, i, s, w, c);
      r := TextYields(g, Get(g, i), Skipped(s, 1), w[1..], c);
      YieldsCons(g, i, w, c, r);
    }
  }

  lemma YieldsLast(g: Setting, i: Input, c: char)
    requires AtRest(i) && Get(g, i).examine == c
    ensures Yields(g, i, "" + [c], Get(g, i))
  {
    hide Get;
    assert "" + [c] == [c] && [c][1..] == "";
  }

  lemma YieldsCons(g: Setting, i: Input, w: string, c: char, r: Input)
    requires w != "" && AtRest(i) && Get(g, i).examine == w[0] && Yields(g, Get(g, i), w[1..] + [c], r)
    ensures Yields(g, i, w + [c], r)
  {
    hide Get;
    assert (w + [c])[1..] == w[1..] + [c];
  }

  /** One character of a path is delivered, and the input stands behind it. */
  lemma TextStep(g: Setting, i: Input, s: Contexts, w: string, c: char)
    requires g.comments && g.substitutions && Expansion.StandsAt(i, s) && w != ""
    requires |w| <= |s[0].Rest()| && s[0].Rest()[..|w|] == w && (forall k :: 0 <= k < |w| ==> Bland(w[k]))
    requires Fetch(Skipped(s, |w|)).ch == c && Slashes(w, c)
    ensures var r := Get(g, i); r.examine == w[0] && Expansion.StandsAt(r, Skipped(s, 1))
    ensures Skipped(Skipped(s, 1), |w| - 1) == Skipped(s, |w|) && Slashes(w[1..], c)
    ensures s[0].Rest() != "" && |w| - 1 <= |Skipped(s, 1)[0].Rest()| && Skipped(s, 1)[0].Rest()[..|w| - 1] == w[1..]
  {
    hide Get, Fetch;
    assert s[0].Rest()[0] == w[0] && Skipped(s, 0) == s && Skipped(s, 1)[0].Rest() == s[0].Rest()[1..];
    FetchSkipped(s, 0);
    if |w| > 1 {
      assert s[0].Rest()[1] == w[1];
      FetchSkipped(s, 1);
    }
    if w[0] == '/' {
      Expansion.MarkDelivered(g, i, s);
    } else {
      Expansion.PlainDelivered(g, i, s);
    }
  }

  /** A character that was put back is delivered, and the input stands behind it. */
  lemma PushedStep(g: Setting, i: Input, s: Contexts)
    requires g.comments && g.substitutions && i.pushed && AtRest(i) && Upcoming(i, s)
    ensures var r := Get(g, i); r.examine == i.examine && Expansion.StandsAt(r, Skipped(s, 1))
  {
    hide Fetch, Get;
    PutBackDelivered(g, i);
  }

  /** The characters of a path name and the one behind it. */
  lemma PathYields(g: Setting, i: Input, s: Contexts, w: string, c: char) returns (r: Input)
    requires g.comments && g.substitutions && AtRest(i) && Upcoming(i, s) && w != ""
    requires |w| <= |s[0].Rest()| && s[0].Rest()[..|w|] == w && (forall k :: 0 <= k < |w| ==> Bland(w[k]))
    requires Fetch(Skipped(s, |w|)).ch == c && c != '/' && c != '$' && Slashes(w, c)
    ensures Yields(g, i, w + [c], r) && !r.pushed
    ensures if c == NUL then r.state == InputState.EndState
            else Expansion.StandsAt(r, Fetch(Skipped(s, |w|)).stack) && r.state == Normal && r.next == c
  {
    hide Get, Fetch, Yields, Bland;
    if i.pushed {
      PushedStep(g, i, s);
      TextStep(g, Expansion.Rewound(i.(pushed := false), s), s, w, c);
      assert s[0].Rest()[0] == w[0];
      r := TextYields(g, Get(g, i), Skipped(s, 1), w[1..], c);
      YieldsCons(g, i, w, c, r);
    } else {
      r := TextYields(g, i, s, w, c);
    }
  }

  lemma {:induction false} PathBland(w: string)
    requires PathPart(w)
    ensures w != "" && forall k :: 0 <= k < |w| ==> Bland(w[k])
  {
    if w[0] != '/' {
      PathBland(w[1..]);
    }
    assert forall k :: 0 < k < |w| ==> w[k] == w[1..][k - 1];
  }

  /**
   * A path name in a text: when the character behind it cannot be part of a path, is no '$', and makes no comment of a
   * slash at the end of the path, one call gives the String token of the path name and puts that character back. What is
   * left is the text behind that character.
   */
  lemma PathNameScanned(src: Source, l: Lexer, s: Contexts, w: string, c: char)
    requires l.Valid() && l.state == Start && Upcoming(l.input, s) && PathName(w)
    requires |w| <= |s[0].Rest()| && s[0].Rest()[..|w|] == w && Fetch(Skipped(s, |w|)).ch == c
    requires !PathChar(c) && c != '$' && (w[|w| - 1] == '/' ==> c != '*' && c != NUL)
    ensures var r := GetToken(src, l);
            && r.token == Token(String, if |w| <= 256 then w else w[..256])
            && r.lexer.state == SeparatorOrError && r.lexer.input.pushed && r.lexer.Examined() == c
            && (c != NUL ==> r.lexer.input.state == Normal && r.lexer.input.next == c &&
                             r.lexer.input.stack == Fetch(Skipped(s, |w|)).stack)
            && (c == NUL ==> r.lexer.input.state == InputState.EndState)
  {
    hide Get, GetToken, Fetch, PathPart;
    PathBland(w);
    var r := PathYields(Usual(src), l.input, s, w, c);
    PathNameToken(src, l, w, c, r);
    YieldsExamined(Usual(src), l.input, w + [c], r);
  }

  lemma {:induction false} YieldsExamined(g: Setting, i: Input, w: string, r: Input)
    requires w != "" && Yields(g, i, w, r)
    ensures r.examine == w[|w| - 1]
    decreases |w|
  {
    hide Get;
    if |w| > 1 {
      YieldsExamined(g, Get(g, i), w[1..], r);
    }
  }

  /** A slash with nothing behind it is not delivered. */
  lemma {:induction false} TextRunsOut(g: Setting, i: Input, s: Contexts, w: string) returns (r: Input)
    requires g.comments && g.substitutions && Expansion.StandsAt(i, s) && w != "" && w[|w| - 1] == '/'
    requires |w| <= |s[0].Rest()| && s[0].Rest()[..|w|] == w && (forall k :: 0 <= k < |w| ==> Bland(w[k]))
    requires Fetch(Skipped(s, |w|)).ch == NUL
    ensures Yields(g, i, w[..|w| - 1] + [NUL], r) && !r.pushed && r.state == InputState.EndState
    decreases |w|
  {
    hide Get, Fetch, Yields;
    if |w| == 1 {
      assert s[0].Rest()[0] == w[0] && Skipped(s, 0) == s;
      FetchSkipped(s, 0);
      Expansion.MarkDelivered(g, i, s);
      r := Get(g, i);
      YieldsLast(g, i, NUL);
      assert w[..0] == "";
    } else {
      assert s[0].Rest()[1] == w[1] && s[0].Rest()[..1] == w[..1] && w[..1] == [w[0]] && Bland(w[1]);
      FetchSkipped(s, 1);
      TextStep(g, i, s, w[..1], w[1]);
      assert Skipped(Skipped(s, 1), |w| - 1) == Skipped(s, |w|);
      r := TextRunsOut(g, Get(g, i), Skipped(s, 1), w[1..]);
      assert w[1..][..|w| - 2] == w[..|w| - 1][1..];
      YieldsCons(g, i, w[..|w| - 1], NUL, r);
    }
  }

  /** So a path name that ends in a slash loses it at the end of the text. */
  lemma TrailingSlashLost(src: Source, l: Lexer, s: Contexts, w: string)
    requires l.Valid() && l.state == Start && Expansion.StandsAt(l.input, s) && PathName(w)
    requires |w| + 1 <= |s[0].Rest()| && s[0].Rest()[..|w| + 1] == w + "/" && Fetch(Skipped(s, |w| + 1)).ch == NUL
    ensures var r := GetToken(src, l);
            && r.token == Token(String, if |w| <= 256 then w else w[..256])
            && r.lexer.state == SeparatorOrError && r.lexer.input.pushed && r.lexer.Examined() == NUL
  {
    hide Get, GetToken, Fetch, PathPart;
    PathBland(w);
    var r := TextRunsOut(Usual(src), l.input, s, w + "/");
    assert (w + "/")[..|w|] == w;
    PathNameToken(src, l, w, NUL, r);
    YieldsExamined(Usual(src), l.input, w + [NUL], r);
  }
}
