/** The token automaton of the scanner: what GetToken makes of the characters it is given. */
module ScannerToken {
  import opened ScannerInput

  /** Longer identifiers are cut off at this length. */
  const MAX_IDENTIFIER_LENGTH: nat := 256

  datatype State =
    | Start | OptionCheck | IsNegativeNumber | IsNumber | IsRealNumber | SeparatorOrError | PositiveNumberCheck
    | IsKeyWord | IsPathName | EndOfString | IsString | SingleSpace | IsMultiSpace | SingleTab | IsMultiTab
    | EndState | ErrorState

  datatype Kind =
    | Separator | Number | RealNumber | KeyWord | String | Space | MultiSpace | Tab | MultiTab
    | InvalidCharacter | EofToken

  datatype Token = Token(kind: Kind, text: string)

  /** What is fixed from SetInput on: the parameters and the memory for contexts. */
  datatype Source = Source(params: seq<Buffer>, memory: nat)

  /** The variables of the scanner; buffer holds the characters kept for the token that is being built. */
  datatype Lexer = Lexer(state: State, input: Input, buffer: string, comments: bool, substitutions: bool) {
      predicate Valid() {
      && AtRest(input) && |buffer| <= MAX_IDENTIFIER_LENGTH
      && (input.pushed ==> LooksAgain(state) && Coherent(input)) && (state == Start ==> buffer == "")
    }

    function Examined(): char { input.examine }

    /** KeepCharacter */
    function Keep(): (r: Lexer)
      ensures r.input == input && r.state == state
    {
      if |buffer| < MAX_IDENTIFIER_LENGTH then this.(buffer := buffer + [input.examine]) else this
    }

    function PutBack(): Lexer {
      this.(input := input.(pushed := true))
    }

    function To(s: State): Lexer {
      this.(state := s)
    }
  }

  function SettingOf(src: Source, l: Lexer): Setting {
    Setting(src.params, src.memory, l.comments, l.substitutions)
  }

  /** GetCharacter */
  function Next(src: Source, l: Lexer): Lexer
    requires AtRest(l.input)
  {
    l.(input := Get(SettingOf(src, l), l.input))
  }

  predicate IsLetter(c: char) { 'A' <= c <= 'Z' || 'a' <= c <= 'z' }
  predicate IsSeparator(c: char) { c in {',', ':', '{', '}', '(', ')', '='} }
  predicate IsPathChar(c: char) { c in {'/', '_', '-', '.'} || IsLetter(c) || IsDigit(c) }
  predicate IsKeyChar(c: char) { c in {'_', '-', '.', '#'} || IsLetter(c) || IsDigit(c) }

  /** Either the automaton goes on, or it hands out a token; the buffer starts over then. */
  datatype LexOutcome = Go(lexer: Lexer) | Emit(lexer: Lexer, token: Token)

  function Made(l: Lexer, kind: Kind): LexOutcome {
    Emit(l.(buffer := ""), Token(kind, l.buffer))
  }

  /** The start of a token; what it needs is set up before the character is read. */
  function Fresh(l: Lexer): Lexer {
    l.(buffer := "", comments := true, substitutions := true)
  }

  function AtStart(n: Lexer): LexOutcome {
    var c := n.Examined();
    if c == NUL then Go(n.To(State.EndState))
    else if c == '"' then Go(n.(comments := false, substitutions := false, state := IsString))
    else
      var k := n.Keep();
      if c == ' ' then Go(k.To(SingleSpace))
      else if c == '\t' then Go(k.To(SingleTab))
      else if c == '-' then Go(k.To(OptionCheck))
      else if c == '+' then Go(k.To(PositiveNumberCheck))
      else if IsDigit(c) then Go(k.To(IsNumber))
      else if c == '/' then Go(k.To(IsPathName))
      else if IsLetter(c) then Go(k.To(IsKeyWord))
      else if IsSeparator(c) then Made(k, Separator)
      else Go(k.To(ErrorState))
  }

  function AtSeparator(n: Lexer): LexOutcome {
    var c := n.Examined();
    if IsSeparator(c) then Made(n.Keep().To(Start), Separator)
    else if c == ' ' then Go(n.Keep().To(SingleSpace))
    else if c == '\t' then Go(n.Keep().To(SingleTab))
    else if c == NUL then Go(n.To(State.EndState))
    else Go(n.Keep().To(ErrorState))
  }

  predicate Reads(s: State) { s != State.EndState && s != ErrorState }

  function AtSign(n: Lexer): LexOutcome {
    var c := n.Examined();
    if n.state == OptionCheck then
      if c == '-' then Made(n.Keep().To(Start), Separator) else Go(n.PutBack().To(IsNegativeNumber))
    else if IsDigit(c) then Go(n.Keep().To(IsNumber))
    else if n.state == IsNegativeNumber then Made(n.PutBack().To(Start), Separator)
    else Go(n.Keep().To(ErrorState))
  }

  function InNumber(n: Lexer): LexOutcome {
    var c := n.Examined();
    if IsDigit(c) then Go(n.Keep())
    else if n.state == IsNumber && c == '.' then Go(n.Keep().To(IsRealNumber))
    else
      Made(n.PutBack().To(if IsLetter(c) then IsKeyWord else SeparatorOrError),
           if n.state == IsNumber then Number else RealNumber)
  }

  function InWord(n: Lexer): LexOutcome {
    var c := n.Examined();
    if (if n.state == IsKeyWord then IsKeyChar(c) else IsPathChar(c)) then Go(n.Keep())
    else if n.state == IsKeyWord && c == '/' then Go(n.Keep().To(IsPathName))
    else Made(n.PutBack().To(SeparatorOrError), if n.state == IsKeyWord then KeyWord else String)
  }

  /** Between quotes everything is kept; a quote is kept only if another one follows. */
  function InString(n: Lexer): LexOutcome {
    var c := n.Examined();
    if n.state == IsString then
      if c == '"' || c == NUL then Go(n.To(EndOfString)) else Go(n.Keep())
    else if c == '"' then Go(n.Keep().To(IsString))
    else Made(n.PutBack().To(Start), String)
  }

  /** A run of one character: more of it is kept, anything else is put back. */
  function InRun(n: Lexer): LexOutcome {
    var space := n.state == SingleSpace || n.state == IsMultiSpace;
    if n.Examined() == (if space then ' ' else '\t') then Go(n.Keep().To(if space then IsMultiSpace else IsMultiTab))
    else
      Made(n.PutBack().To(Start),
           match n.state case SingleSpace => Space case IsMultiSpace => MultiSpace case SingleTab => Tab case _ => MultiTab)
  }

  /** What a state makes of the character just read. */
  function Examine(n: Lexer): LexOutcome
    requires Reads(n.state)
  {
    match n.state
    case Start => AtStart(n)
    case OptionCheck | IsNegativeNumber | PositiveNumberCheck => AtSign(n)
    case IsNumber | IsRealNumber => InNumber(n)
    case SeparatorOrError => AtSeparator(n)
    case IsPathName | IsKeyWord => InWord(n)
    case EndOfString | IsString => InString(n)
    case _ => InRun(n)
  }

  /** One pass through the switch. */
  function LexStep(src: Source, l: Lexer): LexOutcome
    requires l.Valid()
  {
    if l.state == State.EndState then Made(l, EofToken)
    else if l.state == ErrorState then Made(l.To(State.EndState), InvalidCharacter)
    else Examine(Next(src, if l.state == Start then Fresh(l) else l))
  }

  function LexRank(l: Lexer): nat {
    2 * (match l.state
         case EndState | ErrorState => 0
         case Start => 5
         case OptionCheck => 4
         case IsNegativeNumber => 3
         case IsString => 2
         case _ => 1) + if l.input.pushed then 1 else 0
  }

  /** What is ahead of the scanner, not counting a character that was put back. */
  function Left(src: Source, l: Lexer): nat {
    Ahead(Setting(src.params, src.memory, true, true), l.input)
  }

  lemma NextLeft(src: Source, l: Lexer)
    requires AtRest(l.input) && (l.input.pushed ==> Coherent(l.input))
    ensures var n := Next(src, l);
            && AtRest(n.input) && AtRest(n.PutBack().input) && !n.input.pushed
            && Left(src, n) <= Left(src, l) && Left(src, n.PutBack()) == Left(src, n)
            && Coherent(n.input) && Coherent(n.PutBack().input)
            && (n.Examined() != NUL && (!l.input.pushed || n.Examined() != l.Examined()) ==> Left(src, n) < Left(src, l))
  {
    GetCoherent(SettingOf(src, l), l.input);
    GetAhead(SettingOf(src, l), l.input);
    AheadUnaffected(SettingOf(src, l), Setting(src.params, src.memory, true, true), l.input);
    AheadUnaffected(SettingOf(src, l), Setting(src.params, src.memory, true, true), Next(src, l).input);
  }

  lemma AheadUnaffected(g: Setting, h: Setting, i: Input)
    requires g.params == h.params && g.memory == h.memory
    ensures Ahead(g, i) == Ahead(h, i)
  {
  }

  lemma NulEndsAll()
    ensures !IsDigit(NUL) && !IsPathChar(NUL) && !IsKeyChar(NUL)
  {
  }

  /** The states that may look at a character that was put back. */
  predicate LooksAgain(s: State) { s in {Start, IsNegativeNumber, SeparatorOrError, IsKeyWord} }

  /** A character is kept, put back or neither; and it is put back only for the states that look at it next. */
  lemma ExamineFrame(n: Lexer)
    requires Reads(n.state) && !n.input.pushed && |n.buffer| <= MAX_IDENTIFIER_LENGTH
    ensures var r := Examine(n).lexer;
            && |r.buffer| <= MAX_IDENTIFIER_LENGTH && (r.input == n.input || r.input == n.PutBack().input)
            && (r.input.pushed ==> LooksAgain(r.state)) && (r.state == Start ==> r.buffer == "")
  {
    hide IsPathChar, IsKeyChar, IsSeparator, IsLetter, IsDigit;
  }

  /** If the automaton goes on then it has used the character, or it comes closer to a token. */
  lemma ExamineGoesOn(n: Lexer)
    requires Reads(n.state) && !n.input.pushed && Examine(n).Go?
    ensures var r := Examine(n).lexer;
            LexRank(r) < LexRank(n) ||
            (n.Examined() != NUL && !r.input.pushed && (LooksAgain(n.state) ==> LexRank(r) == LexRank(n)))
  {
    hide IsPathChar, IsKeyChar, IsSeparator, IsLetter, IsDigit;
    NulEndsAll();
  }

  lemma LexStepValid(src: Source, l: Lexer)
    requires l.Valid()
    ensures LexStep(src, l).lexer.Valid() && Left(src, LexStep(src, l).lexer) <= Left(src, l)
  {
    hide Get, Ahead, Examine, AtRest, Coherent;
    if Reads(l.state) {
      NextLeft(src, if l.state == Start then Fresh(l) else l);
      ExamineFrame(Next(src, if l.state == Start then Fresh(l) else l));
    }
  }

  lemma LexStepUsesUp(src: Source, l: Lexer)
    requires l.Valid() && LexStep(src, l).Go?
    ensures var n := LexStep(src, l).lexer;
            Left(src, n) < Left(src, l) || (Left(src, n) == Left(src, l) && LexRank(n) < LexRank(l))
  {
    hide Get, Ahead, Examine, AtRest, Coherent;
    var n := Next(src, if l.state == Start then Fresh(l) else l);
    NextLeft(src, if l.state == Start then Fresh(l) else l);
    ExamineFrame(n);
    ExamineGoesOn(n);
  }

  /** One call of GetToken. */
  function GetToken(src: Source, l: Lexer): (r: LexOutcome)
    requires l.Valid()
    ensures r.Emit? && r.lexer.Valid()
    decreases Left(src, l), LexRank(l)
  {
    LexStepValid(src, l);
    match LexStep(src, l)
    case Emit(n, t) => Emit(n, t)
    case Go(n) => LexStepUsesUp(src, l); GetToken(src, n)
  }

  /** The states between calls; a keyword is begun only with its first letter put back. */
  predicate Settled(l: Lexer) {
    && l.Valid() && l.buffer == "" && l.state in {Start, SeparatorOrError, IsKeyWord, State.EndState}
    && (l.state == IsKeyWord ==> l.input.pushed && IsLetter(l.Examined()))
  }

  predicate IsLast(t: Token) { t.kind == EofToken || t.kind == InvalidCharacter }

  /** A bound on the characters to come, that which was put back included. */
  function Outstanding(src: Source, i: Input): nat {
    Ahead(Setting(src.params, src.memory, true, true), i) + if i.pushed && i.examine != NUL then 1 else 0
  }

  lemma NextOutstanding(src: Source, l: Lexer)
    requires l.Valid()
    ensures var n := Next(src, l);
            && Outstanding(src, n.PutBack().input) <= Outstanding(src, l.input)
            && (n.Examined() != NUL ==> Outstanding(src, n.input) < Outstanding(src, l.input))
            && Outstanding(src, n.input) <= Outstanding(src, l.input)
  {
    hide Get, Ahead, AtRest, Coherent;
    NextLeft(src, l);
  }

  /** How one pass through the switch leaves things when it hands out a token. */
  lemma ExamineSettles(n: Lexer)
    requires Reads(n.state) && !n.input.pushed && Examine(n).Emit?
    ensures var r := Examine(n).lexer;
            && r.state in {Start, SeparatorOrError, IsKeyWord} && !IsLast(Examine(n).token)
            && (r.state == IsKeyWord ==> r.input.pushed && IsLetter(r.Examined()))
  {
    hide IsPathChar, IsKeyChar, IsSeparator, IsLetter, IsDigit;
  }

  lemma LexStepOutstanding(src: Source, l: Lexer)
    requires l.Valid()
    ensures Outstanding(src, LexStep(src, l).lexer.input) <= Outstanding(src, l.input)
  {
    hide Get, Ahead, AtRest, Coherent, Examine;
    if Reads(l.state) {
      var k := if l.state == Start then Fresh(l) else l;
      NextLeft(src, k);
      NextOutstanding(src, k);
      ExamineFrame(Next(src, k));
    }
  }

  /** A call of GetToken never increases what is to come, and leaves the automaton between two tokens. */
  lemma {:induction false} GetTokenSettles(src: Source, l: Lexer)
    requires l.Valid()
    ensures var r := GetToken(src, l);
            && Settled(r.lexer) && Outstanding(src, r.lexer.input) <= Outstanding(src, l.input)
            && (IsLast(r.token) ==> r.lexer.state == State.EndState)
            && |r.token.text| <= MAX_IDENTIFIER_LENGTH
    decreases Left(src, l), LexRank(l)
  {
    hide Get, Ahead, AtRest, Coherent, Examine, Outstanding;
    LexStepValid(src, l);
    LexStepOutstanding(src, l);
    if LexStep(src, l).Go? {
      LexStepUsesUp(src, l);
      GetTokenSettles(src, LexStep(src, l).lexer);
    } else if Reads(l.state) {
      var k := if l.state == Start then Fresh(l) else l;
      NextLeft(src, k);
      ExamineSettles(Next(src, k));
      ExamineEmits(Next(src, k));
    }
  }

  lemma ExamineEmits(n: Lexer)
    requires Reads(n.state) && Examine(n).Emit? && |n.buffer| <= MAX_IDENTIFIER_LENGTH
    ensures Examine(n).lexer.buffer == "" && |Examine(n).token.text| <= MAX_IDENTIFIER_LENGTH
  {
    hide IsPathChar, IsKeyChar, IsSeparator, IsLetter, IsDigit;
  }

  /** The first character of a token is consumed, or there is none and the end is next. */
  lemma ExamineFirst(n: Lexer)
    requires n.state in {Start, SeparatorOrError} || (n.state == IsKeyWord && IsLetter(n.Examined()))
    requires !n.input.pushed
    ensures var r := Examine(n);
            if n.Examined() == NUL then r.Go? && r.lexer.state == State.EndState
            else r.lexer.input == n.input
  {
  }

  lemma KeyWordRepeats(src: Source, l: Lexer)
    requires l.Valid() && l.input.pushed && IsLetter(l.Examined())
    ensures Next(src, l).Examined() == l.Examined()
  {
    var g := SettingOf(src, l);
    var m := Machine(l.input.(state := Normal2), 0, 0);
    assert Step(g, m).Deliver?;
  }

  lemma AtEnd(src: Source, l: Lexer)
    requires l.Valid() && l.state == State.EndState
    ensures GetToken(src, l).token.kind == EofToken
  {
  }

  /** A call of GetToken uses up what is to come, unless it reports the end or an invalid character. */
  lemma GetTokenProgress(src: Source, l: Lexer)
    requires Settled(l)
    ensures var r := GetToken(src, l);
            IsLast(r.token) || Outstanding(src, r.lexer.input) < Outstanding(src, l.input)
  {
    hide Get, Ahead, AtRest, Coherent, Examine, Outstanding;
    if l.state != State.EndState {
      var k := if l.state == Start then Fresh(l) else l;
      var n := Next(src, k);
      NextLeft(src, k);
      if l.state == IsKeyWord {
        KeyWordRepeats(src, l);
      }
      NextOutstanding(src, k);
      ExamineFirst(n);
      LexStepValid(src, l);
      if LexStep(src, l).Go? {
        GetTokenSettles(src, LexStep(src, l).lexer);
        if n.Examined() == NUL {
          AtEnd(src, LexStep(src, l).lexer);
        }
      }
    }
  }

  /** Once the end has been reported every later call reports it, and nothing changes any more. */
  lemma EofForever(src: Source, l: Lexer)
    requires l.Valid() && l.state == State.EndState && l.buffer == ""
    ensures GetToken(src, l) == Emit(l, Token(EofToken, ""))
  {
  }

  /** All tokens of the text: GetToken is called until it reports the end or an invalid character. */
  function Tokens(src: Source, l: Lexer): (ts: seq<Token>)
    requires Settled(l)
    ensures ts != [] && IsLast(ts[|ts| - 1]) && forall k :: 0 <= k < |ts| - 1 ==> !IsLast(ts[k])
    ensures |ts| <= Outstanding(src, l.input) + 1
    ensures forall t :: t in ts ==> |t.text| <= MAX_IDENTIFIER_LENGTH
    decreases Outstanding(src, l.input)
  {
    var r := GetToken(src, l);
    GetTokenSettles(src, l);
    GetTokenProgress(src, l);
    if IsLast(r.token) then [r.token] else [r.token] + Tokens(src, r.lexer)
  }
}
