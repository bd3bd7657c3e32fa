/** Quoting: a string whose quote marks are doubled and that is put between quote marks scans to the string itself. */
module ScannerQuote {
  import opened ScannerInput
  import opened ScannerToken
  import opened ScannerComments
  import ScannerMunch

  predicate Quotable(s: string) { forall k :: 0 <= k < |s| ==> s[k] != '\n' && s[k] != NUL }

  function Doubled(s: string): string {
    if s == "" then "" else (if s[0] == '"' then "\"\"" else [s[0]]) + Doubled(s[1..])
  }

  /** The input once the next n characters of the current context have been delivered as they are, the last one being c. */
  function Raw(i: Input, n: nat, c: char): Input
    requires n <= |i.stack[0].Rest()|
  {
    i.(stack := Skipped(i.stack, n), next := c, examine := c, state := Normal, pushed := false, injected := false)
  }

  /** Without comments and substitutions every character is delivered as it is. */
  lemma RawGet(g: Setting, i: Input, c: char)
    requires !g.comments && !g.substitutions && i.state == Normal && !i.pushed
    requires Stands(i, 0, [c]) && c != '\n' && c != NUL
    ensures Get(g, i) == Raw(i, 1, c)
  {
    assert i.stack[0].Rest()[0..1][0] == c && Skipped(i.stack, 0) == i.stack;
    FetchSkipped(i.stack, 0);
    assert Step(g, Machine(i, 0, 0)).Deliver?;
  }

  lemma RawTwice(i: Input, m: nat, c: char, n: nat, d: char)
    requires m + n <= |i.stack[0].Rest()|
    ensures n <= |Raw(i, m, c).stack[0].Rest()| && Raw(Raw(i, m, c), n, d) == Raw(i, m + n, d)
  {
  }

  lemma StandsRaw(i: Input, p: string, q: string, c: char)
    requires Stands(i, 0, p + q)
    ensures Stands(i, 0, p) && |p| <= |i.stack[0].Rest()| && Stands(Raw(i, |p|, c), 0, q)
  {
    StandsApart(i, 0, p, q);
    assert Raw(i, |p|, c).stack[0].Rest() == i.stack[0].Rest()[|p|..];
  }

  /** The automaton inside a string. */
  predicate Quoting(l: Lexer) {
    && l.Valid() && (l.state == IsString || l.state == EndOfString) && !l.comments && !l.substitutions
    && l.input.state == Normal && !l.input.pushed
  }

  /** One character inside a string: it is kept, unless it is a quote mark that was not preceded by one. */
  lemma QuotedChar(src: Source, l: Lexer, c: char)
    requires Quoting(l) && Stands(l.input, 0, [c]) && c != '\n' && c != NUL && (l.state == EndOfString ==> c == '"')
    ensures var kept := c != '"' || l.state == EndOfString;
            var n := l.(input := Raw(l.input, 1, c), state := if kept then IsString else EndOfString,
                        buffer := if kept then ScannerMunch.Kept(l.buffer, [c]) else l.buffer);
            Quoting(n) && GetToken(src, l) == GetToken(src, n)
  {
    hide Get, AtStart, AtSign, InNumber, AtSeparator, InWord, InRun, Stands, ScannerMunch.Kept;
    RawGet(SettingOf(src, l), l.input, c);
    LexStepValid(src, l);
    ScannerMunch.KeepsOne(l.(input := Raw(l.input, 1, c)), c);
    var kept := c != '"' || l.state == EndOfString;
    assert LexStep(src, l) == Go(l.(input := Raw(l.input, 1, c), state := if kept then IsString else EndOfString,
                                    buffer := if kept then ScannerMunch.Kept(l.buffer, [c]) else l.buffer));
  }

  /** The automaton behind the closing quote mark of a string, of which n characters were read. */
  function Closing(l: Lexer, n: nat, text: string): Lexer
    requires n <= |l.input.stack[0].Rest()|
  {
    l.(input := Raw(l.input, n, '"'), state := EndOfString, buffer := text)
  }

  /** The automaton behind n characters of a string, the last one being c. */
  function Keeping(l: Lexer, n: nat, c: char, text: string): Lexer
    requires n <= |l.input.stack[0].Rest()|
  {
    l.(input := Raw(l.input, n, c), state := IsString, buffer := text)
  }

  lemma StandsBound(i: Input, p: string)
    requires Stands(i, 0, p)
    ensures |p| <= |i.stack[0].Rest()|
  {
  }

  /** A character of a string, or two quote marks: one character is kept. */
  lemma OneKept(src: Source, l: Lexer, c: char, rest: string)
    requires Quoting(l) && l.state == IsString && Stands(l.input, 0, Doubled([c]) + rest) && c != '\n' && c != NUL
    ensures |Doubled([c])| + |rest| <= |l.input.stack[0].Rest()|
    ensures var n := Keeping(l, |Doubled([c])|, c, ScannerMunch.Kept(l.buffer, [c]));
            Quoting(n) && GetToken(src, l) == GetToken(src, n) && Stands(n.input, 0, rest)
  {
    hide GetToken, Stands, Skipped;
    var m := l;
    StandsBound(l.input, Doubled([c]) + rest);
    assert [c][1..] == "" && Doubled("") == "";
    if c == '"' {
      assert Doubled([c]) + rest == "\"" + ([c] + rest);
      StandsRaw(l.input, "\"", [c] + rest, '"');
      QuotedChar(src, l, '"');
      m := l.(input := Raw(l.input, 1, '"'), state := EndOfString);
      RawTwice(l.input, 1, '"', 1, c);
    } else {
      assert Doubled([c]) + rest == [c] + rest;
    }
    StandsRaw(m.input, [c], rest, c);
    QuotedChar(src, m, c);
  }

  lemma DoubledCons(s: string)
    requires s != ""
    ensures Doubled(s) + "\"" == Doubled([s[0]]) + (Doubled(s[1..]) + "\"")
  {
    assert [s[0]][1..] == "";
    assert Doubled([s[0]]) == if s[0] == '"' then "\"\"" else [s[0]];
  }

  /** The rest of a string up to its closing quote mark is kept, with one quote mark for two. */
  lemma {:induction false} StringKept(src: Source, l: Lexer, s: string)
    requires Quoting(l) && l.state == IsString && Quotable(s) && Stands(l.input, 0, Doubled(s) + "\"")
    ensures |Doubled(s)| + 1 <= |l.input.stack[0].Rest()|
    ensures var c := Closing(l, |Doubled(s)| + 1, ScannerMunch.Kept(l.buffer, s));
            Quoting(c) && GetToken(src, l) == GetToken(src, c)
    decreases |s|
  {
    hide GetToken, Stands, Skipped;
    StandsBound(l.input, Doubled(s) + "\"");
    if s == "" {
      assert Doubled(s) + "\"" == "\"" && l.buffer + "" == l.buffer;
      QuotedChar(src, l, '"');
    } else {
      var k := |Doubled([s[0]])|;
      DoubledCons(s);
      OneKept(src, l, s[0], Doubled(s[1..]) + "\"");
      var n := Keeping(l, k, s[0], ScannerMunch.Kept(l.buffer, [s[0]]));
      StringKept(src, n, s[1..]);
      RawTwice(l.input, k, s[0], |Doubled(s[1..])| + 1, '"');
      KeptCons(l.buffer, s);
    }
  }

  lemma KeptCons(b: string, s: string)
    requires s != "" && |b| <= MAX_IDENTIFIER_LENGTH
    ensures ScannerMunch.Kept(ScannerMunch.Kept(b, [s[0]]), s[1..]) == ScannerMunch.Kept(b, s)
  {
    ScannerMunch.KeptMore(b, s, |s| - 1);
    assert s[..|s|] == s && s[1..][..|s| - 1] == s[1..];
  }

  /** The text is next: from the current position, or from the character that was put back. */
  predicate IsNext(i: Input, p: string) {
    && p != ""
    && (if i.pushed then i.examine == i.next == p[0] && !i.injected && Stands(i, 0, p[1..])
        else i.state == Normal && Stands(i, 0, p))
  }

  lemma QuoteOpened(src: Source, l: Lexer, p: string)
    requires l.Valid() && l.state == Start && IsNext(l.input, "\"" + p)
    ensures var k := if l.input.pushed then 0 else 1;
            && k + |p| <= |l.input.stack[0].Rest()|
            && var n := Lexer(IsString, Raw(l.input, k, '"'), "", false, false);
               Quoting(n) && Stands(n.input, 0, p) && GetToken(src, l) == GetToken(src, n)
  {
    var i := l.input;
    assert ("\"" + p)[1..] == p && Skipped(i.stack, 0) == i.stack;
    var g := SettingOf(src, Fresh(l));
    var m := Machine(if i.pushed then i.(state := Normal2) else i, 0, 0);
    if !i.pushed {
      StandsRaw(i, "\"", p, '"');
      assert i.stack[0].Rest()[0..1][0] == '"';
      FetchSkipped(i.stack, 0);
    }
    assert Step(g, m).Deliver?;
    LexStepValid(src, l);
  }

  /** Without comments and substitutions a call delivers what Read_Character returns. */
  lemma RawFetch(g: Setting, i: Input)
    requires !g.comments && !g.substitutions && i.state == Normal && !i.pushed
    ensures var r := Get(g, i); r.examine == Fetch(i.stack).ch && r.stack == Fetch(i.stack).stack
  {
    hide Fetch;
    var r := Fetch(i.stack);
    var m := Machine(i, 0, 0);
    if r.ch == NUL {
      var j := i.(stack := r.stack, next := NUL, state := InputState.EndState);
      ScanProceeds(g, m, Machine(j, 0, 0));
      assert Step(g, Machine(j, 0, 0)).Deliver?;
    } else {
      assert Step(g, m).Deliver?;
    }
  }

  lemma StringClosed(src: Source, l: Lexer)
    requires Quoting(l) && l.state == EndOfString && Fetch(l.input.stack).ch != '"'
    ensures var r := GetToken(src, l);
            && r.token == Token(String, l.buffer) && r.lexer.state == Start && r.lexer.input.pushed
            && r.lexer.input.stack == Fetch(l.input.stack).stack && r.lexer.Examined() == Fetch(l.input.stack).ch
  {
    hide Get, Fetch;
    RawFetch(SettingOf(src, l), l.input);
    LexStepValid(src, l);
  }

  /**
   * The round trip: between two tokens, a quoted text scans to one String token with exactly that text, cut off at the
   * maximum, and the character behind it is put back for the next token. The text may hold comments, commands and quote
   * marks. The character behind it must not be a quote mark, since that would be taken for the second one of a pair.
   */
  lemma QuotedString(src: Source, l: Lexer, s: string)
    requires l.Valid() && l.state == Start && Quotable(s) && IsNext(l.input, "\"" + Doubled(s) + "\"")
    requires var n := |Doubled(s)| + if l.input.pushed then 1 else 2;
             n <= |l.input.stack[0].Rest()| ==> Fetch(Skipped(l.input.stack, n)).ch != '"'
    ensures var n := |Doubled(s)| + if l.input.pushed then 1 else 2;
            && n <= |l.input.stack[0].Rest()|
            && var r, behind := GetToken(src, l), Fetch(Skipped(l.input.stack, n));
               && r.token == Token(String, if |s| <= 256 then s else s[..256])
               && r.lexer.state == Start && r.lexer.input.pushed && r.lexer.Examined() == behind.ch
               && r.lexer.input.stack == behind.stack
  {
    hide GetToken, Stands, Fetch, IsNext, Doubled;
    var p := Doubled(s) + "\"";
    assert "\"" + Doubled(s) + "\"" == "\"" + p;
    QuoteOpened(src, l, p);
    var k := if l.input.pushed then 0 else 1;
    var n := Lexer(IsString, Raw(l.input, k, '"'), "", false, false);
    StringKept(src, n, s);
    assert "" + s == s;
    RawTwice(l.input, k, '"', |Doubled(s)| + 1, '"');
    StringClosed(src, Closing(n, |Doubled(s)| + 1, ScannerMunch.Kept("", s)));
  }

  /** At the end of the text a string ends without its closing quote mark. */
  lemma StringCutShort(src: Source, l: Lexer)
    requires Quoting(l) && l.state == IsString && Fetch(l.input.stack).ch == NUL
    ensures var r := GetToken(src, l);
            r.token == Token(String, l.buffer) && r.lexer.state == Start && r.lexer.input.pushed && r.lexer.Examined() == NUL
  {
    hide Fetch, AtStart, AtSign, InNumber, AtSeparator, InWord, InRun;
    var g := SettingOf(src, l);
    var j := l.input.(stack := Fetch(l.input.stack).stack, next := NUL, state := InputState.EndState);
    ScanProceeds(g, Machine(l.input, 0, 0), Machine(j, 0, 0));
    var i := j.(examine := NUL);
    assert Step(g, Machine(j, 0, 0)) == Deliver(i) && Step(g, Machine(i, 0, 0)) == Deliver(i);
    assert Get(g, l.input) == i && Get(g, i) == i;
    hide Get;
    var n := l.(input := i, state := EndOfString);
    LexStepValid(src, l);
    assert LexStep(src, l) == Go(n);
  }

  lemma {:induction false} OpenString(src: Source, l: Lexer, s: string)
    requires Quoting(l) && l.state == IsString && Quotable(s) && Stands(l.input, 0, Doubled(s))
    requires |Doubled(s)| <= |l.input.stack[0].Rest()| ==> Fetch(Skipped(l.input.stack, |Doubled(s)|)).ch == NUL
    ensures var r := GetToken(src, l);
            && r.token == Token(String, ScannerMunch.Kept(l.buffer, s)) && r.lexer.state == Start
            && r.lexer.input.pushed && r.lexer.Examined() == NUL
    decreases |s|
  {
    hide GetToken, Stands, Fetch;
    StandsBound(l.input, Doubled(s));
    if s == "" {
      assert Skipped(l.input.stack, 0) == l.input.stack && l.buffer + "" == l.buffer;
      StringCutShort(src, l);
    } else {
      var k, rest := |Doubled([s[0]])|, Doubled(s[1..]);
      DoubledFirst(s);
      OneKept(src, l, s[0], rest);
      var n := Keeping(l, k, s[0], ScannerMunch.Kept(l.buffer, [s[0]]));
      StandsBound(n.input, rest);
      assert Skipped(n.input.stack, |rest|) == Skipped(l.input.stack, k + |rest|);
      OpenString(src, n, s[1..]);
      KeptCons(l.buffer, s);
    }
  }

  lemma DoubledFirst(s: string)
    requires s != ""
    ensures Doubled(s) == Doubled([s[0]]) + Doubled(s[1..])
  {
    assert [s[0]][1..] == "" && Doubled("") == "";
  }

  /** A string that is not closed before the end of the text is taken as if it were. */
  lemma UnclosedString(src: Source, l: Lexer, s: string)
    requires l.Valid() && l.state == Start && Quotable(s) && IsNext(l.input, "\"" + Doubled(s))
    requires var n := |Doubled(s)| + if l.input.pushed then 0 else 1;
             n <= |l.input.stack[0].Rest()| ==> Fetch(Skipped(l.input.stack, n)).ch == NUL
    ensures var r := GetToken(src, l);
            && r.token == Token(String, if |s| <= 256 then s else s[..256]) && r.lexer.state == Start
            && r.lexer.input.pushed && r.lexer.Examined() == NUL
  {
    hide GetToken, Stands, Fetch, IsNext, Doubled;
    QuoteOpened(src, l, Doubled(s));
    var k := if l.input.pushed then 0 else 1;
    var n := Lexer(IsString, Raw(l.input, k, '"'), "", false, false);
    assert Skipped(n.input.stack, |Doubled(s)|) == Skipped(l.input.stack, k + |Doubled(s)|);
    assert "" + s == s;
    OpenString(src, n, s);
  }
}
