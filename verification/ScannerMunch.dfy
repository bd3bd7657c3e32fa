/** Plain text: every token is the longest word of its language, and the tokens together are the text. */
module ScannerMunch {
  import opened ScannerInput
  import opened ScannerToken

  // ----- the input as a string

  predicate Ordinary(c: char) { c !in {'/', '$', '"', '\n', NUL} }

  predicate Plain(s: string) { forall k :: 0 <= k < |s| ==> Ordinary(s[k]) }

  /** Plain text in a single context, possibly with its last character put back, possibly at its end. */
  predicate PlainInput(i: Input) {
    && AtRest(i) && |i.stack| == 1 && Plain(i.stack[0].Rest())
    && (i.state == InputState.EndState ==> i.stack[0].Rest() == "" && i.next == NUL && i.examine == NUL)
    && (if i.pushed then i.examine == i.next && (if i.next == NUL then i.stack[0].Rest() == "" else Ordinary(i.next) && !i.injected)
        else i.state != Normal2)
  }

  /** The characters that have not been made into tokens. */
  function Unscanned(i: Input): string {
    if i.pushed && i.examine != NUL then [i.examine] + i.stack[0].Rest() else i.stack[0].Rest()
  }

  lemma PlainFetch(s: Contexts)
    requires |s| == 1 && Plain(s[0].Rest())
    ensures var r := Fetch(s); var rest := s[0].Rest();
            && |r.stack| == 1 && r.ch == (if rest == "" then NUL else rest[0])
            && r.stack[0].Rest() == (if rest == "" then "" else rest[1..])
  {
    if s[0].Rest() != "" {
      assert Ordinary(s[0].Rest()[0]) && s[0].Rest()[0] == s[0].buffer.text[s[0].pos];
    }
  }

  /** A call delivers the first character of the text, or NUL at its end; it may be put back. */
  lemma PlainGet(g: Setting, i: Input)
    requires PlainInput(i)
    ensures var r := Get(g, i); var u := Unscanned(i);
            && PlainInput(r) && !r.pushed
            && PlainInput(r.(pushed := true)) && Unscanned(r.(pushed := true)) == u
            && r.examine == (if u == "" then NUL else u[0])
            && Unscanned(r) == (if u == "" then "" else u[1..])
            && (u != "" ==> Ordinary(u[0]))
  {
    hide Fetch, Ordinary;
    Special();
    PlainFetch(i.stack);
    var rest := i.stack[0].Rest();
    var m := Machine(if i.pushed then i.(state := Normal2) else i, 0, 0);
    if i.pushed && i.next != NUL {
      assert Step(g, m).Deliver?;
    } else if i.pushed || i.state == InputState.EndState {
      PlainEnd(g, i);
    } else if rest == "" {
      PlainEnd(g, i);
    } else {
      assert Ordinary(rest[0]);
      assert Step(g, m).Deliver?;
    }
  }

  lemma Special()
    ensures !Ordinary('/') && !Ordinary('$') && !Ordinary(NUL)
  {
  }

  lemma PlainEnd(g: Setting, i: Input)
    requires PlainInput(i) && Unscanned(i) == ""
    ensures Get(g, i) == Input(i.stack, InputState.EndState, NUL, NUL, false, i.injected)
  {
    hide Ordinary;
    PlainFetchEnd(i.stack);
    var m := Machine(if i.pushed then i.(state := Normal2) else i, 0, 0);
    if i.pushed || i.state != InputState.EndState {
      var j := i.(state := InputState.EndState, pushed := false, next := NUL);
      ScanProceeds(g, m, Machine(j, 0, 0));
    }
  }

  lemma PlainFetchEnd(s: Contexts)
    requires |s| == 1 && s[0].Rest() == ""
    ensures Fetch(s) == Fetched(NUL, s)
  {
  }

  // ----- the languages of the tokens

  predicate Letter(c: char) { 'A' <= c <= 'Z' || 'a' <= c <= 'z' }
  predicate Digit(c: char) { '0' <= c <= '9' }
  predicate Punctuation(c: char) { c in {',', ':', '{', '}', '(', ')', '='} }
  predicate WordChar(c: char) { Letter(c) || Digit(c) || c in {'_', '-', '.', '#'} }
  predicate PathChar(c: char) { Letter(c) || Digit(c) || c in {'_', '-', '.', '/'} }

  /** The characters that the automaton tells apart. */
  lemma ClassesAgree(c: char)
    ensures IsLetter(c) <==> Letter(c)
    ensures IsDigit(c) <==> Digit(c)
    ensures IsSeparator(c) <==> Punctuation(c)
    ensures IsKeyChar(c) <==> WordChar(c)
    ensures IsPathChar(c) <==> PathChar(c)
  {
  }

  predicate Digits(w: string) { forall k :: 0 <= k < |w| ==> Digit(w[k]) }
  predicate KeyChars(w: string) { forall k :: 0 <= k < |w| ==> WordChar(w[k]) }
  predicate Run(w: string, c: char) { forall k :: 0 <= k < |w| ==> w[k] == c }

  /** Digits, a point and digits. */
  predicate Fraction(w: string) {
    w != "" && (if w[0] == '.' then Digits(w[1..]) else Digit(w[0]) && Fraction(w[1..]))
  }

  function Unsigned(w: string): string {
    if w != "" && (w[0] == '+' || w[0] == '-') then w[1..] else w
  }

  predicate Numeral(kind: Kind, w: string) {
    || (kind == Number && Digits(w))
    || (kind == RealNumber && Fraction(w))
  }

  predicate Word(kind: Kind, w: string) {
    match kind
    case Space => w == " "
    case MultiSpace => |w| > 1 && Run(w, ' ')
    case Tab => w == "\t"
    case MultiTab => |w| > 1 && Run(w, '\t')
    case Separator => w == "-" || w == "--" || (|w| == 1 && Punctuation(w[0]))
    case Number | RealNumber => var d := Unsigned(w); d != "" && Digit(d[0]) && Numeral(kind, d[1..])
    case KeyWord => w != "" && Letter(w[0]) && KeyChars(w[1..])
    case _ => false
  }

  /** The words that may come next: any at the start, what separates tokens behind one, a keyword behind digits. */
  predicate Lexeme(s: State, kind: Kind, w: string) {
    && Word(kind, w)
    && (s == SeparatorOrError ==> !kind.Number? && !kind.RealNumber? && !kind.KeyWord? && w[0] != '-')
    && (s == IsKeyWord ==> kind == KeyWord)
  }

  /** What may follow in a state in the middle of a token. */
  predicate Residual(s: State, kind: Kind, w: string) {
    match s
    case Start | SeparatorOrError => Lexeme(s, kind, w)
    case OptionCheck => (kind == Separator && (w == "" || w == "-")) || (w != "" && Digit(w[0]) && Numeral(kind, w[1..]))
    case IsNegativeNumber => (kind == Separator && w == "") || (w != "" && Digit(w[0]) && Numeral(kind, w[1..]))
    case PositiveNumberCheck => w != "" && Digit(w[0]) && Numeral(kind, w[1..])
    case IsNumber => Numeral(kind, w)
    case IsRealNumber => kind == RealNumber && Digits(w)
    case IsKeyWord => kind == KeyWord && KeyChars(w)
    case SingleSpace => Run(w, ' ') && kind == (if w == "" then Space else MultiSpace)
    case IsMultiSpace => Run(w, ' ') && kind == MultiSpace
    case SingleTab => Run(w, '\t') && kind == (if w == "" then Tab else MultiTab)
    case IsMultiTab => Run(w, '\t') && kind == MultiTab
    case _ => false
  }

  /** The states that plain text leads to. */
  predicate Munching(s: State) {
    !s.IsString? && !s.EndOfString? && !s.IsPathName? && !s.EndState? && !s.ErrorState?
  }

  lemma RunCons(c: char, w: string)
    ensures Run([c] + w, ' ') <==> c == ' ' && Run(w, ' ')
    ensures Run([c] + w, '\t') <==> c == '\t' && Run(w, '\t')
    ensures Run("", ' ') && Run("", '\t')
  {
    if c == ' ' && Run(w, ' ') {
      assert forall k :: 0 < k < |[c] + w| ==> ([c] + w)[k] == w[k - 1];
    }
    if c == '\t' && Run(w, '\t') {
      assert forall k :: 0 < k < |[c] + w| ==> ([c] + w)[k] == w[k - 1];
    }
    assert ([c] + w)[1..] == w && ([c] + w)[0] == c;
    assert forall k :: 0 <= k < |w| ==> w[k] == ([c] + w)[k + 1];
  }

  lemma DigitsCons(c: char, w: string)
    ensures Digits([c] + w) <==> Digit(c) && Digits(w)
    ensures KeyChars([c] + w) <==> WordChar(c) && KeyChars(w)
    ensures Fraction([c] + w) <==> if c == '.' then Digits(w) else Digit(c) && Fraction(w)
  {
    var v := [c] + w;
    assert v[0] == c && v[1..] == w;
    assert forall k :: 0 <= k < |w| ==> w[k] == v[k + 1];
    assert forall k :: 0 < k < |v| ==> v[k] == w[k - 1];
  }

  /** The automaton and the languages agree on one character: what it accepts, and what may follow. */
  predicate Agree(n: Lexer, kind: Kind, w: string)
    requires Reads(n.state)
  {
    var v := [n.Examined()] + w;
    match Examine(n)
    case Emit(r, t) =>
      if r.input.pushed then !Residual(n.state, kind, v)
      else Residual(n.state, kind, v) <==> kind == t.kind && w == ""
    case Go(r) =>
      if r.input.pushed then Munching(r.state) && (Residual(n.state, kind, v) <==> Residual(r.state, kind, v))
      else Residual(n.state, kind, v) <==> Residual(r.state, kind, w)
  }

  lemma SignsApart(c: char)
    ensures Digit(c) || Letter(c) || Punctuation(c) ==> c != ' ' && c != '\t' && c != '+' && c != '-' && c != '.'
    ensures Digit(c) ==> !Letter(c) && !Punctuation(c)
    ensures Letter(c) ==> !Punctuation(c)
  {
  }

  /** The first character of a word decides what it can be. */
  lemma WordCons(kind: Kind, c: char, w: string)
    ensures Word(kind, [c] + w) <==>
            if c == ' ' then Residual(SingleSpace, kind, w)
            else if c == '\t' then Residual(SingleTab, kind, w)
            else if c == '-' then Residual(OptionCheck, kind, w)
            else if c == '+' then Residual(PositiveNumberCheck, kind, w)
            else if Digit(c) then Residual(IsNumber, kind, w)
            else if Letter(c) then Residual(IsKeyWord, kind, w)
            else Punctuation(c) && kind == Separator && w == ""
  {
    hide IsKeyChar, KeyChars, Digits, Fraction, Run, IsDigit, IsLetter, IsSeparator, WordChar, Digit, Letter,
         Punctuation;
    RunCons(c, w);
    SignsApart(c);
    assert ([c] + w)[1..] == w && ([c] + w)[0] == c;
    if kind == Separator {
      assert [c] + w == "-" <==> c == '-' && w == "";
      assert [c] + w == "--" <==> c == '-' && w == "-";
    } else if kind == Space {
      assert [c] + w == " " <==> c == ' ' && w == "";
    } else if kind == Tab {
      assert [c] + w == "\t" <==> c == '\t' && w == "";
    }
  }

  lemma AgreeStart(n: Lexer, kind: Kind, w: string)
    requires n.state == Start && !n.input.pushed && Ordinary(n.Examined())
    ensures Agree(n, kind, w)
  {
    hide Word, Numeral, KeyChars, Run, Digits, Fraction, IsDigit, IsLetter, IsSeparator, IsKeyChar, IsPathChar,
         AtSign, InNumber, AtSeparator, InWord, InString, InRun, Digit, Letter, Punctuation, WordChar;
    ClassesAgree(n.Examined());
    WordCons(kind, n.Examined(), w);
  }

  lemma AgreeSeparator(n: Lexer, kind: Kind, w: string)
    requires n.state == SeparatorOrError && !n.input.pushed && Ordinary(n.Examined())
    ensures Agree(n, kind, w)
  {
    hide Word, KeyChars, Run, Digits, Fraction, IsDigit, IsLetter, IsSeparator, IsKeyChar, IsPathChar, Ordinary,
         AtStart, AtSign, InNumber, InWord, InString, InRun, Digit, Letter, Punctuation, WordChar;
    ClassesAgree(n.Examined());
    SignsApart(n.Examined());
    WordCons(kind, n.Examined(), w);
  }

  lemma AgreeSign(n: Lexer, kind: Kind, w: string)
    requires n.state == OptionCheck || n.state == IsNegativeNumber || n.state == PositiveNumberCheck
    requires !n.input.pushed && Ordinary(n.Examined())
    ensures Agree(n, kind, w)
  {
    hide Word, Numeral, KeyChars, Run, Digits, Fraction, IsDigit, IsLetter, IsSeparator, IsKeyChar, IsPathChar,
         Ordinary, Lexeme, AtStart, InNumber, AtSeparator, InWord, InString, InRun, Digit, Letter, Punctuation,
         WordChar;
    ClassesAgree(n.Examined());
    SignsApart(n.Examined());
    assert ([n.Examined()] + w)[1..] == w;
  }

  lemma AgreeDigits(n: Lexer, kind: Kind, w: string)
    requires (n.state == IsNumber || n.state == IsRealNumber) && !n.input.pushed && Ordinary(n.Examined())
    ensures Agree(n, kind, w)
  {
    hide Word, KeyChars, Run, Digits, Fraction, IsDigit, IsLetter, IsSeparator, IsKeyChar, IsPathChar, Ordinary,
         Lexeme, AtStart, AtSign, AtSeparator, InWord, InString, InRun, Digit, Letter, Punctuation, WordChar;
    ClassesAgree(n.Examined());
    SignsApart(n.Examined());
    DigitsCons(n.Examined(), w);
  }

  lemma AgreeKeyWord(n: Lexer, kind: Kind, w: string)
    requires n.state == IsKeyWord && !n.input.pushed && Ordinary(n.Examined())
    ensures Agree(n, kind, w)
  {
    hide Word, Numeral, Run, Digits, Fraction, IsDigit, IsLetter, IsSeparator, IsKeyChar, IsPathChar, Lexeme,
         AtStart, AtSign, InNumber, AtSeparator, InString, InRun, Digit, Letter, Punctuation, WordChar;
    ClassesAgree(n.Examined());
    DigitsCons(n.Examined(), w);
  }

  lemma AgreeRun(n: Lexer, kind: Kind, w: string)
    requires n.state == SingleSpace || n.state == IsMultiSpace || n.state == SingleTab || n.state == IsMultiTab
    requires !n.input.pushed && Ordinary(n.Examined())
    ensures Agree(n, kind, w)
  {
    hide Word, Numeral, KeyChars, Run, Digits, Fraction, IsDigit, IsLetter, IsSeparator, IsKeyChar, IsPathChar,
         Ordinary, Lexeme, AtStart, AtSign, InNumber, AtSeparator, InWord, InString, Digit, Letter, Punctuation,
         WordChar;
    RunCons(n.Examined(), w);
  }

  lemma AgreeAll(n: Lexer, kind: Kind, w: string)
    requires Munching(n.state) && !n.input.pushed && Ordinary(n.Examined())
    ensures Agree(n, kind, w)
  {
    hide Agree;
    if n.state == Start {
      AgreeStart(n, kind, w);
    } else if n.state == SeparatorOrError {
      AgreeSeparator(n, kind, w);
    } else if n.state == OptionCheck || n.state == IsNegativeNumber || n.state == PositiveNumberCheck {
      AgreeSign(n, kind, w);
    } else if n.state == IsNumber || n.state == IsRealNumber {
      AgreeDigits(n, kind, w);
    } else if n.state == IsKeyWord {
      AgreeKeyWord(n, kind, w);
    } else {
      AgreeRun(n, kind, w);
    }
  }

  /** What the automaton accepts without a further character, and what it does at the end of the text. */
  predicate AgreeAtEnd(n: Lexer, kind: Kind)
    requires Reads(n.state)
  {
    match Examine(n)
    case Emit(r, t) => r.input.pushed ==> (Residual(n.state, kind, "") <==> kind == t.kind)
    case Go(r) =>
      if r.input.pushed then Residual(n.state, kind, "") <==> Residual(r.state, kind, "")
      else
        && (n.Examined() == NUL || r.state == ErrorState || r.state == PositiveNumberCheck ==> !Residual(n.state, kind, ""))
        && r.state != Start && r.state != SeparatorOrError
  }

  lemma EmptyWord(s: State, kind: Kind)
    ensures Residual(s, kind, "") <==>
            match s
            case OptionCheck | IsNegativeNumber => kind == Separator
            case IsNumber => kind == Number
            case IsRealNumber => kind == RealNumber
            case IsKeyWord => kind == KeyWord
            case SingleSpace => kind == Space
            case IsMultiSpace => kind == MultiSpace
            case SingleTab => kind == Tab
            case IsMultiTab => kind == MultiTab
            case _ => false
  {
  }

  lemma AgreeEmpty(n: Lexer, kind: Kind)
    requires Munching(n.state) && !n.input.pushed && (n.Examined() == NUL || Ordinary(n.Examined()))
    ensures AgreeAtEnd(n, kind)
  {
    hide Lexer.Keep, Residual, IsKeyChar, IsPathChar, IsDigit, IsLetter, IsSeparator, Ordinary, WordChar, Digit, Letter,
         Punctuation;
    ClassesAgree(n.Examined());
    NulEndsAll();
    EmptyWord(n.state, kind);
    EmptyWord(IsNegativeNumber, kind);
  }

  // ----- the longest match

  /** Longer texts are cut off. */
  function Cut(s: string): string { if |s| <= 256 then s else s[..256] }

  /** What the buffer holds once s has been kept behind b. */
  function Kept(b: string, s: string): string { Cut(b + s) }

  /** No beginning of u is a word for state s. */
  ghost predicate NoWord(s: State, u: string) {
    forall kind, m :: 0 <= m <= |u| ==> !Residual(s, kind, u[..m])
  }

  /** The first k characters of u are a word of that kind only, and no longer beginning of u is a word. */
  ghost predicate LongestWord(s: State, u: string, k: nat, kind: Kind) {
    k <= |u| && forall kind', m :: k <= m <= |u| ==> (Residual(s, kind', u[..m]) <==> m == k && kind' == kind)
  }

  /** The outcome of the automaton in state s on the text u, as the languages have it. */
  ghost predicate Munches(s: State, base: string, u: string, r: LexOutcome) {
    r.Emit? && PlainInput(r.lexer.input) &&
    if r.token.kind == EofToken then u == "" && (s == Start || s == SeparatorOrError) && NoWord(s, u)
    else if r.token.kind == InvalidCharacter then (u != "" || s == PositiveNumberCheck) && NoWord(s, u)
    else
      var v := Unscanned(r.lexer.input); var k := |u| - |v|;
      k >= 0 && v == u[k..] && r.token.text == Kept(base, u[..k]) && LongestWord(s, u, k, r.token.kind)
  }

  /** In state s the character c leads to state s'. */
  ghost predicate Leads(s: State, c: char, s': State) {
    forall kind, w :: Residual(s, kind, [c] + w) <==> Residual(s', kind, w)
  }

  lemma OneFurther(s: State, u: string, s': State, m: nat, kind: Kind)
    requires u != "" && Leads(s, u[0], s') && 0 < m <= |u|
    ensures Residual(s, kind, u[..m]) <==> Residual(s', kind, u[1..][..m - 1])
  {
    hide Residual;
    assert u[..m] == [u[0]] + u[1..][..m - 1];
  }

  lemma LongerWord(s: State, u: string, s': State, k: nat, kind: Kind)
    requires u != "" && Leads(s, u[0], s') && LongestWord(s', u[1..], k, kind)
    ensures LongestWord(s, u, k + 1, kind)
  {
    hide Residual, Leads;
    forall kind', m | k + 1 <= m <= |u|
      ensures Residual(s, kind', u[..m]) <==> m == k + 1 && kind' == kind
    {
      OneFurther(s, u, s', m, kind');
    }
  }

  lemma StillNoWord(s: State, u: string, s': State)
    requires u != "" && Leads(s, u[0], s') && NoWord(s', u[1..]) && forall kind :: !Residual(s, kind, "")
    ensures NoWord(s, u)
  {
    hide Residual, Leads;
    forall kind, m | 0 <= m <= |u|
      ensures !Residual(s, kind, u[..m])
    {
      if m > 0 {
        OneFurther(s, u, s', m, kind);
      }
    }
  }

  lemma KeptMore(b: string, u: string, k: nat)
    requires u != "" && k < |u| && |b| <= MAX_IDENTIFIER_LENGTH
    ensures Kept(Kept(b, [u[0]]), u[1..][..k]) == Kept(b, u[..k + 1])
  {
    assert u[..k + 1] == [u[0]] + u[1..][..k];
    assert b + u[..k + 1] == (b + [u[0]]) + u[1..][..k];
  }

  lemma OnlySign(s: State, u: string)
    requires Munching(s) && s != Start && s != SeparatorOrError && NoWord(s, u)
    ensures s == PositiveNumberCheck
  {
    assert u[..0] == "";
    forall kind ensures !Residual(s, kind, u[..0]) {
    }
    EmptyWord(s, Separator);
    EmptyWord(s, Number);
    EmptyWord(s, RealNumber);
    EmptyWord(s, KeyWord);
    EmptyWord(s, Space);
    EmptyWord(s, MultiSpace);
    EmptyWord(s, Tab);
    EmptyWord(s, MultiTab);
  }

  /** Emission at once: with the character just read, or without it. */
  lemma MunchesAtOnce(n: Lexer, base: string, u: string)
    requires Munching(n.state) && !n.input.pushed && Examine(n).Emit?
    requires n.Examined() == (if u == "" then NUL else u[0]) && (u != "" ==> Ordinary(u[0]))
    ensures var r := Examine(n);
            !IsLast(r.token) && LongestWord(n.state, u, if r.lexer.input.pushed then 0 else 1, r.token.kind)
  {
    hide Residual;
    var r := Examine(n);
    ExamineSettles(n);
    if u == "" {
      NulEmits(n);
    }
    var k := if r.lexer.input.pushed then 0 else 1;
    forall kind, m | k <= m <= |u|
      ensures Residual(n.state, kind, u[..m]) <==> m == k && kind == r.token.kind
    {
      if m == 0 {
        assert u[..m] == "";
        AgreeEmpty(n, kind);
      } else {
        assert u[..m] == [u[0]] + u[1..m];
        AgreeAll(n, kind, u[1..m]);
      }
    }
  }

  lemma NulEmits(n: Lexer)
    requires Munching(n.state) && Examine(n).Emit? && n.Examined() == NUL
    ensures Examine(n).lexer.input.pushed
  {
  }

  /** Where the character that was read goes to when a token is handed out. */
  lemma EmitKeeps(n: Lexer)
    requires Munching(n.state) && !n.input.pushed && Examine(n).Emit?
    ensures var r := Examine(n).lexer;
            Examine(n) == Made((if r.input.pushed then n.PutBack() else n.Keep()).To(r.state), Examine(n).token.kind)
  {
    hide Lexer.Keep, IsPathChar, IsKeyChar, IsLetter, IsDigit, IsSeparator, WordChar, Letter, Digit, Punctuation;
  }

  /** Where the character that was read goes to when the automaton goes on. */
  lemma GoKeeps(n: Lexer)
    requires Munching(n.state) && !n.input.pushed && (n.Examined() == NUL || Ordinary(n.Examined())) && Examine(n).Go?
    ensures var r := Examine(n).lexer;
            if r.input.pushed then r == n.PutBack().To(IsNegativeNumber)
            else if n.Examined() == NUL then
              if n.state == PositiveNumberCheck then r == n.Keep().To(ErrorState)
              else r == n.To(State.EndState) && (n.state == Start || n.state == SeparatorOrError)
            else r == n.Keep().To(r.state) && (r.state == ErrorState || Munching(r.state))
  {
    hide Lexer.Keep, IsPathChar, IsKeyChar, IsLetter, IsDigit, IsSeparator, WordChar, Letter, Digit, Punctuation;
    NulEndsAll();
  }

  function Base(l: Lexer): string { if l.state == Start then "" else l.buffer }

  /** The automaton has gone on with the character put back. */
  lemma MunchesAgain(n: Lexer, base: string, u: string, r: LexOutcome)
    requires Munching(n.state) && !n.input.pushed && Examine(n).Go? && Examine(n).lexer.input.pushed
    requires n.Examined() == (if u == "" then NUL else u[0]) && (u != "" ==> Ordinary(u[0]))
    requires Munches(IsNegativeNumber, base, u, r)
    ensures Munches(n.state, base, u, r)
  {
    hide Residual;
    GoKeeps(n);
    forall kind, m | 0 <= m <= |u|
      ensures Residual(n.state, kind, u[..m]) <==> Residual(IsNegativeNumber, kind, u[..m])
    {
      if m == 0 {
        assert u[..m] == "";
        AgreeEmpty(n, kind);
      } else {
        assert u[..m] == [u[0]] + u[1..m];
        AgreeAll(n, kind, u[1..m]);
      }
    }
  }

  /** The automaton has gone on with the character kept. */
  lemma MunchesMore(n: Lexer, base: string, u: string, r: LexOutcome)
    requires Munching(n.state) && !n.input.pushed && Examine(n).Go? && !Examine(n).lexer.input.pushed
    requires u != "" && n.Examined() == u[0] && Ordinary(u[0]) && |base| <= MAX_IDENTIFIER_LENGTH
    requires Munching(Examine(n).lexer.state) && Munches(Examine(n).lexer.state, Kept(base, [u[0]]), u[1..], r)
    ensures Munches(n.state, base, u, r)
  {
    hide Residual, Examine, LongestWord, NoWord, PlainInput, Ordinary, Kept, Unscanned;
    var s' := Examine(n).lexer.state;
    GoLeads(n, u[0]);
    if IsLast(r.token) {
      NotFirst(n);
      OnlySign(s', u[1..]);
      forall kind ensures !Residual(n.state, kind, "") {
        SignFirst(n, kind);
      }
      StillNoWord(n.state, u, s');
    } else {
      var k := |u[1..]| - |Unscanned(r.lexer.input)|;
      LongerWord(n.state, u, s', k, r.token.kind);
      KeptMore(base, u, k);
    }
  }

  lemma GoLeads(n: Lexer, c: char)
    requires Munching(n.state) && !n.input.pushed && Examine(n).Go? && !Examine(n).lexer.input.pushed
    requires n.Examined() == c && Ordinary(c)
    ensures Leads(n.state, c, Examine(n).lexer.state)
  {
    hide Residual, Examine;
    forall kind, w ensures Residual(n.state, kind, [c] + w) <==> Residual(Examine(n).lexer.state, kind, w) {
      AgreeAll(n, kind, w);
    }
  }

  lemma NotFirst(n: Lexer)
    requires Munching(n.state) && !n.input.pushed && Examine(n).Go? && !Examine(n).lexer.input.pushed
    requires Ordinary(n.Examined())
    ensures Examine(n).lexer.state != Start && Examine(n).lexer.state != SeparatorOrError
  {
    AgreeEmpty(n, Separator);
  }

  lemma SignFirst(n: Lexer, kind: Kind)
    requires Munching(n.state) && !n.input.pushed && Examine(n).Go? && !Examine(n).lexer.input.pushed
    requires Ordinary(n.Examined()) && Examine(n).lexer.state in {PositiveNumberCheck, ErrorState}
    ensures !Residual(n.state, kind, "")
  {
    AgreeEmpty(n, kind);
  }

  /** The automaton is at its end, or it has seen what no word continues with. */
  lemma MunchesNothing(n: Lexer, base: string, u: string, r: LexOutcome)
    requires Munching(n.state) && !n.input.pushed && Examine(n).Go? && !Examine(n).lexer.input.pushed
    requires n.Examined() == (if u == "" then NUL else u[0]) && (u != "" ==> Ordinary(u[0]))
    requires !Munching(Examine(n).lexer.state) && r.Emit? && PlainInput(r.lexer.input)
    requires r.token.kind == (if Examine(n).lexer.state == State.EndState then EofToken else InvalidCharacter)
    ensures Munches(n.state, base, u, r)
  {
    hide Residual, PlainInput;
    GoKeeps(n);
    forall kind, m | 0 <= m <= |u|
      ensures !Residual(n.state, kind, u[..m])
    {
      if m == 0 {
        assert u[..m] == "";
        AgreeEmpty(n, kind);
      } else {
        assert u[..m] == [u[0]] + u[1..m];
        AgreeAll(n, kind, u[1..m]);
        ErrorHasNoWord(kind, u[1..m]);
      }
    }
  }

  lemma ErrorHasNoWord(kind: Kind, w: string)
    ensures !Residual(ErrorState, kind, w)
  {
  }

  lemma MunchesEmitted(n: Lexer, base: string, u: string)
    requires Munching(n.state) && !n.input.pushed && Examine(n).Emit?
    requires n.buffer == base && |base| <= MAX_IDENTIFIER_LENGTH
    requires n.Examined() == (if u == "" then NUL else u[0]) && (u != "" ==> Ordinary(u[0]))
    requires PlainInput(n.input) && Unscanned(n.input) == (if u == "" then "" else u[1..])
    requires PlainInput(n.PutBack().input) && Unscanned(n.PutBack().input) == u
    ensures Munches(n.state, base, u, Examine(n))
  {
    hide Residual, PlainInput, Unscanned, Examine, LongestWord, Ordinary;
    MunchesAtOnce(n, base, u);
    EmitKeeps(n);
    if u == "" {
      NulEmits(n);
    }
    assert u[..0] == "" && u[0..] == u && base + "" == base && (u != "" ==> u[..1] == [u[0]]);
  }

  /** A call of GetToken on plain text takes the longest word that its state allows. */
  lemma {:induction false} Munched(src: Source, l: Lexer)
    requires l.Valid() && PlainInput(l.input) && Munching(l.state)
    ensures Munches(l.state, Base(l), Unscanned(l.input), GetToken(src, l))
    decreases Left(src, l), LexRank(l)
  {
    hide Get, Ahead, Left, AtRest, Coherent, Examine, PlainInput, Unscanned, Munches, Ordinary, Kept, Lexer.Keep,
         LexRank;
    var k := if l.state == Start then Fresh(l) else l;
    var n := Next(src, k);
    var u := Unscanned(l.input);
    PlainGet(SettingOf(src, k), k.input);
    LexStepValid(src, l);
    if Examine(n).Emit? {
      MunchesEmitted(n, Base(l), u);
    } else {
      LexStepUsesUp(src, l);
      GoKeeps(n);
      var r := Examine(n).lexer;
      if Munching(r.state) {
        Munched(src, r);
        if r.input.pushed {
          MunchesAgain(n, Base(l), u, GetToken(src, r));
        } else {
          assert u != "";
          KeepsOne(n, u[0]);
          NotFirst(n);
          assert Base(r) == Kept(Base(l), [u[0]]);
          MunchesMore(n, Base(l), u, GetToken(src, r));
        }
      } else {
        LastKind(src, r);
        MunchesNothing(n, Base(l), u, GetToken(src, r));
      }
    }
  }

  lemma KeepsOne(n: Lexer, c: char)
    requires n.Examined() == c && |n.buffer| <= MAX_IDENTIFIER_LENGTH
    ensures n.Keep().buffer == Kept(n.buffer, [c])
  {
  }

  lemma LastKind(src: Source, l: Lexer)
    requires l.Valid() && (l.state == State.EndState || l.state == ErrorState)
    ensures var r := GetToken(src, l);
            && r.Emit? && r.lexer.input == l.input
            && r.token.kind == if l.state == State.EndState then EofToken else InvalidCharacter
  {
  }

  /** In the state of a keyword whose first letter was put back, what may follow is a keyword. */
  lemma KeyWordResidual(kind: Kind, u: string)
    requires u != "" && Letter(u[0])
    ensures Residual(IsKeyWord, kind, u) <==> Lexeme(IsKeyWord, kind, u)
    ensures Residual(IsKeyWord, KeyWord, [u[0]])
  {
    assert u == [u[0]] + u[1..];
    DigitsCons(u[0], u[1..]);
    DigitsCons(u[0], "");
  }

  lemma NoEmptyLexeme(s: State, kind: Kind)
    ensures !Lexeme(s, kind, "")
  {
  }

  /** A state between two tokens, on a text that starts with a letter if a keyword is next. */
  predicate Between(s: State, u: string) {
    s == Start || s == SeparatorOrError || (s == IsKeyWord && u != "" && Letter(u[0]))
  }

  lemma ResidualIsLexeme(s: State, u: string, kind: Kind, m: nat)
    requires Between(s, u) && 0 < m <= |u|
    ensures Residual(s, kind, u[..m]) <==> Lexeme(s, kind, u[..m])
    ensures s == IsKeyWord ==> Residual(s, KeyWord, u[..1])
  {
    hide Word, KeyChars, Ordinary;
    if s == IsKeyWord {
      KeyWordResidual(kind, u[..m]);
      assert u[..1] == [u[0]];
    }
  }

  lemma ResidualOfNothing(s: State, u: string, kind: Kind)
    requires Between(s, u)
    ensures Residual(s, kind, "") <==> s == IsKeyWord && kind == KeyWord
  {
    EmptyWord(s, kind);
  }

  /** What is left to scan is a prefix shorter by the word that was taken. */
  ghost predicate TakesLongest(s: State, u: string, v: string, t: Token) {
    var k := |u| - |v|;
    && 0 < k <= |u| && v == u[k..] && t.text == Kept("", u[..k])
    && forall kind, m :: k <= m <= |u| ==> (Lexeme(s, kind, u[..m]) <==> m == k && kind == t.kind)
  }

  ghost predicate HasNoLexeme(s: State, u: string) {
    forall kind, m :: 0 <= m <= |u| ==> !Lexeme(s, kind, u[..m])
  }

  lemma LexemeMunched(s: State, u: string, r: LexOutcome)
    requires Munches(s, "", u, r) && Between(s, u) && !IsLast(r.token)
    ensures TakesLongest(s, u, Unscanned(r.lexer.input), r.token) && u != "" && !HasNoLexeme(s, u)
  {
    hide Residual, PlainInput, Unscanned, Lexeme, IsLetter, Letter;
    var k := |u| - |Unscanned(r.lexer.input)|;
    if k == 0 {
      assert u[..0] == "" && Residual(s, r.token.kind, u[..0]);
      ResidualOfNothing(s, u, r.token.kind);
      ResidualIsLexeme(s, u, KeyWord, 1);
    }
    forall kind, m | k <= m <= |u|
      ensures Lexeme(s, kind, u[..m]) <==> m == k && kind == r.token.kind
    {
      ResidualIsLexeme(s, u, kind, m);
    }
    assert Lexeme(s, r.token.kind, u[..k]);
  }

  lemma NoLexemeMunched(s: State, u: string, r: LexOutcome)
    requires Munches(s, "", u, r) && Between(s, u) && IsLast(r.token)
    ensures s != IsKeyWord && HasNoLexeme(s, u)
  {
    hide Residual, PlainInput, Unscanned, Lexeme, IsLetter, Letter;
    assert u[..0] == "" && !Residual(s, KeyWord, u[..0]);
    ResidualOfNothing(s, u, KeyWord);
    forall kind, m | 0 <= m <= |u|
      ensures !Lexeme(s, kind, u[..m])
    {
      if m == 0 {
        NoEmptyLexeme(s, kind);
      } else {
        ResidualIsLexeme(s, u, kind, m);
      }
    }
  }

  /** The state behind a token: a keyword may follow digits at once, words need something that separates them. */
  function Following(kind: Kind, v: string): State {
    match kind
    case Number | RealNumber => if v != "" && Letter(v[0]) then IsKeyWord else SeparatorOrError
    case KeyWord => SeparatorOrError
    case _ => Start
  }

  /** The state in which a pass through the switch hands out a token. */
  lemma ExamineFollowed(n: Lexer)
    requires Reads(n.state) && Examine(n).Emit?
    ensures var r := Examine(n);
            match r.token.kind
            case Number | RealNumber =>
              r.lexer.input.pushed && r.lexer.state == if Letter(n.Examined()) then IsKeyWord else SeparatorOrError
            case KeyWord => r.lexer.state == SeparatorOrError
            case String => r.lexer.input.pushed
            case Space | MultiSpace | Tab | MultiTab | Separator => r.lexer.state == Start
            case _ => false
    ensures Examine(n).lexer.Examined() == n.Examined()
  {
    hide IsPathChar, IsKeyChar, IsLetter, IsDigit, IsSeparator, Letter;
    ClassesAgree(n.Examined());
  }

  /** The state that a call of GetToken leaves. */
  lemma {:induction false} TokenFollowed(src: Source, l: Lexer)
    requires l.Valid()
    ensures var r := GetToken(src, l);
            match r.token.kind
            case Number | RealNumber =>
              r.lexer.input.pushed && r.lexer.state == if Letter(r.lexer.Examined()) then IsKeyWord else SeparatorOrError
            case KeyWord => r.lexer.state == SeparatorOrError
            case String => r.lexer.input.pushed
            case Space | MultiSpace | Tab | MultiTab | Separator => r.lexer.state == Start
            case _ => r.lexer.state == State.EndState
    decreases Left(src, l), LexRank(l)
  {
    hide Get, Ahead, AtRest, Coherent, Examine, Left, LexRank;
    LexStepValid(src, l);
    if LexStep(src, l).Go? {
      LexStepUsesUp(src, l);
      TokenFollowed(src, LexStep(src, l).lexer);
    } else if Reads(l.state) {
      ExamineFollowed(Next(src, if l.state == Start then Fresh(l) else l));
    }
  }

  lemma PutBackIsNext(i: Input)
    requires PlainInput(i) && i.pushed
    ensures Letter(i.examine) <==> Unscanned(i) != "" && Letter(Unscanned(i)[0])
  {
  }

  /**
   * Maximal munch: between tokens GetToken takes the longest beginning of plain text that is a word its state allows,
   * and that word is of one kind only; an invalid character means that no beginning is such a word. The state behind the
   * token is that which its kind and the next character call for.
   */
  lemma LongestMatch(src: Source, l: Lexer)
    requires Settled(l) && PlainInput(l.input) && l.state != State.EndState
    ensures var r := GetToken(src, l); var u := Unscanned(l.input);
            && PlainInput(r.lexer.input)
            && (r.token.kind == EofToken <==> u == "")
            && (r.token.kind == InvalidCharacter <==> u != "" && HasNoLexeme(l.state, u))
            && (!IsLast(r.token) ==>
                  && TakesLongest(l.state, u, Unscanned(r.lexer.input), r.token)
                  && r.lexer.state == Following(r.token.kind, Unscanned(r.lexer.input)))
  {
    hide GetToken, Residual, PlainInput, Lexeme, IsLetter, HasNoLexeme, TakesLongest, NoWord, LongestWord, Letter;
    Munched(src, l);
    var r, u := GetToken(src, l), Unscanned(l.input);
    LetterNotNul(l.Examined());
    ClassesAgree(l.Examined());
    TokenFollowed(src, l);
    if r.lexer.input.pushed {
      PutBackIsNext(r.lexer.input);
    }
    if IsLast(r.token) {
      NoLexemeMunched(l.state, u, r);
    } else {
      LexemeMunched(l.state, u, r);
      OnlyWords(l.state, u, Unscanned(r.lexer.input), r.token);
    }
  }

  lemma OnlyWords(s: State, u: string, v: string, t: Token)
    requires TakesLongest(s, u, v, t)
    ensures t.kind != String
  {
    var k := |u| - |v|;
    assert Lexeme(s, t.kind, u[..k]);
  }

  lemma LetterNotNul(c: char)
    ensures Letter(c) ==> c != NUL
  {
  }

  function Concat(words: seq<string>): string {
    if words == [] then "" else words[0] + Concat(words[1..])
  }

  /** The tokens in front of the last one are these words, each cut off at the maximum. */
  ghost predicate SpellWords(ts: seq<Token>, words: seq<string>) {
    && |ts| == |words| + 1
    && forall k :: 0 <= k < |words| ==> Word(ts[k].kind, words[k]) && ts[k].text == Kept("", words[k])
  }

  /**
   * The tokens of a plain text, up to the first invalid character or the end, are the words of a beginning of the text:
   * nothing is lost or doubled; and if the last token reports the end, then the words are the whole text.
   */
  lemma {:induction false} TokensAreTheText(src: Source, l: Lexer) returns (words: seq<string>, rest: string)
    requires Settled(l) && PlainInput(l.input) && l.state != State.EndState
    ensures SpellWords(Tokens(src, l), words) && Concat(words) + rest == Unscanned(l.input)
    ensures Tokens(src, l)[|words|].kind == EofToken <==> rest == ""
    decreases Outstanding(src, l.input)
  {
    hide GetToken, PlainInput, HasNoLexeme, Kept, Unscanned, Outstanding, SpellWords, Concat;
    var r, u := GetToken(src, l), Unscanned(l.input);
    LongestMatch(src, l);
    GetTokenSettles(src, l);
    GetTokenProgress(src, l);
    if IsLast(r.token) {
      words, rest := [], u;
      SpellNothing(r.token);
    } else {
      var v := Unscanned(r.lexer.input);
      var k := |u| - |v|;
      NotAtEnd(src, l);
      words, rest := TokensAreTheText(src, r.lexer);
      assert Lexeme(l.state, r.token.kind, u[..k]) && u == u[..k] + v;
      SpellMore(r.token, u[..k], Tokens(src, r.lexer), words, rest);
      words := [u[..k]] + words;
    }
  }

  lemma SpellNothing(t: Token)
    ensures SpellWords([t], []) && Concat([]) == ""
  {
  }

  lemma SpellMore(t: Token, w: string, ts: seq<Token>, words: seq<string>, rest: string)
    requires SpellWords(ts, words) && Word(t.kind, w) && t.text == Kept("", w)
    ensures |ts| == |words| + 1 && SpellWords([t] + ts, [w] + words)
    ensures Concat([w] + words) + rest == w + (Concat(words) + rest)
  {
    hide Word, Kept;
    assert ([w] + words)[1..] == words;
    Regrouped(w, Concat(words), rest);
  }

  lemma Regrouped(a: string, b: string, c: string)
    ensures (a + b) + c == a + (b + c)
  {
  }

  lemma {:induction false} NotAtEnd(src: Source, l: Lexer)
    requires l.Valid()
    ensures IsLast(GetToken(src, l).token) || GetToken(src, l).lexer.state != State.EndState
    decreases Left(src, l), LexRank(l)
  {
    hide Get, Ahead, AtRest, Coherent, Examine, Left, LexRank;
    LexStepValid(src, l);
    if LexStep(src, l).Go? {
      LexStepUsesUp(src, l);
      NotAtEnd(src, LexStep(src, l).lexer);
    } else if Reads(l.state) {
      var k := if l.state == Start then Fresh(l) else l;
      NextLeft(src, k);
      ExamineSettles(Next(src, k));
    }
  }
}
