/** The scanner as it runs: state kept in variables, updated by loops, and proved equal to the automata. */
module ScannerMachine {
  import opened ScannerInput
  import opened ScannerToken

  class Scanner {
    var contexts: Contexts
    var params: seq<Buffer>
    /** How many contexts malloc has room for besides the anchor. */
    var memory: nat
    var currentState: State
    var inputState: InputState
    var nextCharacter: char
    var characterToExamine: char
    var examineCurrentCharacter: bool
    var characterInjected: bool
    var detectComments: bool
    var substitutionsAllowed: bool
    const buffer: array<char>
    var positionInBuffer: nat

    /** The scanner before its first input. */
    constructor (room: nat)
      ensures Sound() && fresh(buffer) && Settled(Lexer()) && memory == room
    {
      contexts, params, memory := [Context(Buffer(0, ""), 0)], [], room;
      currentState, inputState := Start, Normal;
      nextCharacter, characterToExamine := ' ', ' ';
      examineCurrentCharacter, characterInjected := false, false;
      detectComments, substitutionsAllowed := true, true;
      buffer := new char[MAX_IDENTIFIER_LENGTH](k => NUL);
      positionInBuffer := 0;
    }

    ghost function Setting(): Setting
      reads this
    {
      ScannerInput.Setting.Setting(params, memory, detectComments, substitutionsAllowed)
    }

    ghost function Source(): Source
      reads this
    {
      ScannerToken.Source.Source(params, memory)
    }

    ghost function Now(): Input
      reads this
    {
      Input(contexts, inputState, nextCharacter, characterToExamine, examineCurrentCharacter, characterInjected)
    }

    /** The buffer is in bounds, and all of its cells behind the current position are 0. */
    ghost predicate Sound()
      reads this, buffer
    {
      && buffer.Length == MAX_IDENTIFIER_LENGTH && positionInBuffer <= MAX_IDENTIFIER_LENGTH
      && forall k :: positionInBuffer <= k < buffer.Length ==> buffer[k] == NUL
    }

    ghost function Lexer(): Lexer
      requires Sound()
      reads this, buffer
    {
      ScannerToken.Lexer.Lexer(currentState, Now(), buffer[..positionInBuffer], detectComments, substitutionsAllowed)
    }

    /** SetInput for a command line held in memory; whether a made-up character is pending is not reset. */
    method SetInput(text: Buffer, parameters: seq<Buffer>)
      requires buffer.Length == MAX_IDENTIFIER_LENGTH
      modifies this, buffer
      ensures Sound() && memory == old(memory) && params == parameters
      ensures Lexer() == ScannerToken.Lexer.Lexer(Start,
                           Input([Context(text, 0)], Normal, ' ', ' ', false, old(characterInjected)), "",
                           old(detectComments), old(substitutionsAllowed))
      ensures Settled(Lexer())
    {
      hide Coherent;
      CloseContexts();
      currentState, inputState := Start, Normal;
      positionInBuffer := 0;
      examineCurrentCharacter := false;
      characterToExamine, nextCharacter := ' ', ' ';
      params := parameters;
      ClearBuffer();
      contexts := [Context(text, 0)];
    }

    method CloseContexts()
      modifies `contexts
    {
      while |contexts| > 1
        decreases |contexts|
      {
        contexts := contexts[1..];
      }
    }

    method ClearBuffer()
      modifies buffer
      ensures forall k :: 0 <= k < buffer.Length ==> buffer[k] == NUL
    {
      for index := 0 to buffer.Length
        invariant forall k :: 0 <= k < index ==> buffer[k] == NUL
      {
        buffer[index] := NUL;
      }
    }

    /** Read_Character */
    method ReadCharacter()
      modifies `contexts, `nextCharacter
      ensures Fetched(nextCharacter, contexts) == Fetch(old(contexts))
    {
      var contextChange := true;
      while contextChange
        invariant contextChange ==> Fetch(contexts) == Fetch(old(contexts))
        invariant !contextChange ==> Fetched(nextCharacter, contexts) == Fetch(old(contexts))
        decreases if contextChange then 1 else 0, Unread(contexts), |contexts|
      {
        contextChange := false;
        var c := contexts[0];
        if c.pos < |c.buffer.text| {
          nextCharacter := c.buffer.text[c.pos];
          AdvancedUnread(contexts);
          contexts := Advanced(contexts);
          if nextCharacter == '\n' {
            contextChange := true;
          }
        } else if |contexts| > 1 {
          contexts := contexts[1..];
          contextChange := true;
        } else {
          nextCharacter := NUL;
        }
      }
    }

    /** Normal, Normal2 and the states that return a character. */
    method SwitchNormal(ghost nesting: nat, ghost number: nat) returns (done: bool)
      requires inputState in {Normal, Normal2, InputState.EndState, NotComment, NotSubstitution}
      modifies `contexts, `nextCharacter, `inputState, `characterToExamine, `examineCurrentCharacter, `characterInjected
      ensures Step(Setting(), Machine(old(Now()), nesting, number)) ==
              if done then Deliver(Now()) else Proceed(Machine(Now(), nesting, number))
    {
      done := true;
      if inputState == InputState.EndState {
        characterToExamine := NUL;
      } else if inputState == NotComment || inputState == NotSubstitution {
        characterToExamine := if inputState == NotComment then '/' else '$';
        characterInjected := true;
        inputState := Normal2;
      } else {
        if inputState == Normal {
          ReadCharacter();
        }
        if detectComments && nextCharacter == '/' {
          inputState, examineCurrentCharacter, done := StartCommentCheck, false, false;
        } else if substitutionsAllowed && nextCharacter == '$' {
          inputState, examineCurrentCharacter, done := StartSubstitution, false, false;
        } else if nextCharacter == NUL {
          inputState, examineCurrentCharacter, done := InputState.EndState, false, false;
        } else if examineCurrentCharacter {
          examineCurrentCharacter := false;
          if characterInjected {
            characterInjected := false;
            inputState := Normal2;
          } else {
            inputState := Normal;
          }
        } else {
          characterToExamine := nextCharacter;
          inputState := Normal;
          characterInjected := false;
        }
      }
    }

    /** The states of a comment. */
    method SwitchComment(nestingLevel: nat, ghost number: nat) returns (nesting: nat)
      requires inputState == StartCommentCheck || InComment(inputState)
      requires Machine(Now(), nestingLevel, number).Consistent()
      modifies `contexts, `nextCharacter, `inputState
      ensures Step(Setting(), Machine(old(Now()), nestingLevel, number)) == Proceed(Machine(Now(), nesting, number))
    {
      nesting := nestingLevel;
      if inputState == StartCommentCheck {
        ReadCharacter();
        inputState := NotComment;
        if nextCharacter == '*' {
          inputState := CommentFound;
          nesting := nesting + 1;
        }
      } else if inputState == EmbeddedCommentCheck {
        ReadCharacter();
        inputState := CommentFound;
        if nextCharacter == '*' {
          nesting := nesting + 1;
        }
      } else if inputState == FindEndOfComment {
        ReadCharacter();
        inputState := CommentFound2;
        if nextCharacter == '/' {
          nesting := nesting - 1;
          if nesting == 0 {
            inputState := Normal;
          }
        }
      } else {
        if inputState == CommentFound {
          ReadCharacter();
        }
        inputState := CommentFound;
        if nextCharacter == '/' {
          inputState := EmbeddedCommentCheck;
        }
        if nextCharacter == '*' {
          inputState := FindEndOfComment;
        }
      }
      if nextCharacter == NUL {
        inputState := InputState.EndState;
      }
    }

    /** The states of a substitution command. */
    method SwitchSubstitution(ghost nesting: nat, substitutionNumber: nat) returns (number: nat)
      requires inputState in {StartSubstitution, SubstitutionFound, SkipInitialSpaces, GetReplacementID, SkipEndSpaces,
                              DoSubstitution}
      requires Machine(Now(), nesting, substitutionNumber).Consistent()
      modifies `contexts, `nextCharacter, `inputState
      ensures Step(Setting(), Machine(old(Now()), nesting, substitutionNumber)) == Proceed(Machine(Now(), nesting, number))
    {
      number := substitutionNumber;
      if inputState == StartSubstitution {
        ReadCharacter();
        inputState := NotSubstitution;
        if nextCharacter == '(' {
          inputState := SubstitutionFound;
        }
        if nextCharacter == NUL {
          inputState := InputState.EndState;
        }
      } else if inputState == SubstitutionFound {
        number := 0;
        inputState := SkipInitialSpaces;
      } else if inputState == SkipInitialSpaces {
        ReadCharacter();
        if nextCharacter != ' ' {
          inputState := if IsDigit(nextCharacter) then GetReplacementID else InputState.EndState;
        }
      } else if inputState == GetReplacementID {
        number := Extended(number, nextCharacter);
        ReadCharacter();
        if nextCharacter == ' ' {
          inputState := SkipEndSpaces;
        } else if nextCharacter == ')' {
          inputState := DoSubstitution;
        } else if !IsDigit(nextCharacter) {
          inputState := InputState.EndState;
        }
      } else if inputState == SkipEndSpaces {
        ReadCharacter();
        if nextCharacter == ')' {
          inputState := DoSubstitution;
        } else if nextCharacter != ' ' {
          inputState := InputState.EndState;
        }
      } else {
        Substitute(number);
      }
    }

    /** The replacement parameter becomes the current context, unless it is the current one already. */
    method Substitute(number: nat)
      modifies `contexts, `inputState
      ensures Now() == Substituted(Setting(), old(Now()), number)
    {
      inputState := Normal;
      if 0 < number <= |params| {
        if params[number - 1].address != contexts[0].buffer.address {
          if |contexts| <= memory {
            contexts := [Context(params[number - 1], 0)] + contexts;
          } else {
            inputState := InputState.EndState;
          }
        } else {
          inputState := InputState.EndState;
        }
      } else {
        inputState := InputState.EndState;
      }
    }

    /** GetCharacter: run the switch until it returns a character. */
    method GetCharacter()
      requires AtRest(Now())
      modifies `contexts, `nextCharacter, `inputState, `characterToExamine, `examineCurrentCharacter, `characterInjected
      ensures Now() == Get(Setting(), old(Now()))
    {
      var substitutionNumber, nestingLevel := 0, 0;
      if examineCurrentCharacter {
        inputState := Normal2;
      }
      ghost var g := Setting();
      ghost var goal := Get(g, old(Now()));
      var done := false;
      while !done
        invariant Setting() == g
        invariant done ==> Now() == goal
        invariant !done ==> Machine(Now(), nestingLevel, substitutionNumber).Consistent()
        invariant !done ==> Scan(g, Machine(Now(), nestingLevel, substitutionNumber)) == goal
        decreases if done then 0 else 1, Fuel(g, Now()), Rank(inputState)
      {
        done, nestingLevel, substitutionNumber := SwitchOnce(nestingLevel, substitutionNumber);
      }
    }

    method SwitchOnce(nestingLevel: nat, substitutionNumber: nat) returns (done: bool, nesting: nat, number: nat)
      requires Machine(Now(), nestingLevel, substitutionNumber).Consistent()
      modifies `contexts, `nextCharacter, `inputState, `characterToExamine, `examineCurrentCharacter, `characterInjected
      ensures var m := Machine(old(Now()), nestingLevel, substitutionNumber); var n := Machine(Now(), nesting, number);
              if done then Now() == Scan(Setting(), m)
              else
                && n.Consistent() && Scan(Setting(), n) == Scan(Setting(), m)
                && (Fuel(Setting(), Now()) < Fuel(Setting(), old(Now())) ||
                    (Fuel(Setting(), Now()) == Fuel(Setting(), old(Now())) && Rank(inputState) < Rank(old(inputState))))
    {
      hide Step, Fuel, Rank;
      ghost var m := Machine(Now(), nestingLevel, substitutionNumber);
      done, nesting, number := false, nestingLevel, substitutionNumber;
      if inputState == StartCommentCheck || InComment(inputState) {
        nesting := SwitchComment(nestingLevel, number);
      } else if inputState in {Normal, Normal2, InputState.EndState, NotComment, NotSubstitution} {
        done := SwitchNormal(nesting, number);
      } else {
        number := SwitchSubstitution(nesting, substitutionNumber);
      }
      if !done {
        StepUsesUp(Setting(), m);
        ScanProceeds(Setting(), m, Machine(Now(), nesting, number));
      }
    }

    method KeepCharacter()
      requires Sound()
      modifies `positionInBuffer, buffer
      ensures Sound() && Lexer() == old(Lexer()).Keep()
    {
      if positionInBuffer < MAX_IDENTIFIER_LENGTH {
        buffer[positionInBuffer] := characterToExamine;
        positionInBuffer := positionInBuffer + 1;
        assert buffer[..positionInBuffer] == old(buffer[..positionInBuffer]) + [characterToExamine];
      }
    }

    /** MakeToken: the characters that were kept are moved to the token, and their cells are cleared. */
    method MakeToken(kind: Kind) returns (token: Token)
      requires Sound()
      modifies `positionInBuffer, buffer
      ensures Sound() && Made(old(Lexer()), kind) == Emit(Lexer(), token)
    {
      var text := "";
      for index := 0 to positionInBuffer
        invariant text == old(buffer[..index])
        invariant forall k :: 0 <= k < index ==> buffer[k] == NUL
        invariant forall k :: index <= k < buffer.Length ==> buffer[k] == old(buffer[k])
        modifies buffer
      {
        text := text + [buffer[index]];
        buffer[index] := NUL;
      }
      token := Token(kind, text);
      positionInBuffer := 0;
    }

    ghost predicate Done(before: ScannerToken.Lexer, made: bool, token: Token)
      requires Reads(before.state)
      reads this, buffer
    {
      Sound() && Examine(before) == if made then Emit(Lexer(), token) else Go(Lexer())
    }

    method SwitchStart() returns (made: bool, token: Token)
      requires Sound() && currentState == Start && !examineCurrentCharacter
      modifies `currentState, `detectComments, `substitutionsAllowed, `positionInBuffer, buffer
      ensures Done(old(Lexer()), made, token)
    {
      made := false;
      token := *;
      if characterToExamine == NUL {
        currentState := State.EndState;
      } else if characterToExamine == '"' {
        detectComments, substitutionsAllowed := false, false;
        currentState := IsString;
      } else {
        KeepCharacter();
        var c := characterToExamine;
        if c == ' ' {
          currentState := SingleSpace;
        } else if c == '\t' {
          currentState := SingleTab;
        } else if c == '-' {
          currentState := OptionCheck;
        } else if c == '+' {
          currentState := PositiveNumberCheck;
        } else if IsDigit(c) {
          currentState := IsNumber;
        } else if c == '/' {
          currentState := IsPathName;
        } else if IsLetter(c) {
          currentState := IsKeyWord;
        } else if IsSeparator(c) {
          made := true;
          token := MakeToken(Separator);
        } else {
          currentState := ErrorState;
        }
      }
    }

    method SwitchSign() returns (made: bool, token: Token)
      requires Sound() && !examineCurrentCharacter
      requires currentState == OptionCheck || currentState == IsNegativeNumber || currentState == PositiveNumberCheck
      modifies `currentState, `examineCurrentCharacter, `positionInBuffer, buffer
      ensures Done(old(Lexer()), made, token)
    {
      made := false;
      token := *;
      if currentState == OptionCheck {
        if characterToExamine == '-' {
          KeepCharacter();
          currentState := Start;
          made := true;
          token := MakeToken(Separator);
        } else {
          examineCurrentCharacter := true;
          currentState := IsNegativeNumber;
        }
      } else if IsDigit(characterToExamine) {
        KeepCharacter();
        currentState := IsNumber;
      } else if currentState == IsNegativeNumber {
        examineCurrentCharacter := true;
        currentState := Start;
        made := true;
        token := MakeToken(Separator);
      } else {
        KeepCharacter();
        currentState := ErrorState;
      }
    }

    method SwitchNumber() returns (made: bool, token: Token)
      requires Sound() && !examineCurrentCharacter && (currentState == IsNumber || currentState == IsRealNumber)
      modifies `currentState, `examineCurrentCharacter, `positionInBuffer, buffer
      ensures Done(old(Lexer()), made, token)
    {
      made := false;
      token := *;
      if IsDigit(characterToExamine) {
        KeepCharacter();
      } else if currentState == IsNumber && characterToExamine == '.' {
        KeepCharacter();
        currentState := IsRealNumber;
      } else {
        var kind := if currentState == IsNumber then Number else RealNumber;
        currentState := if IsLetter(characterToExamine) then IsKeyWord else SeparatorOrError;
        examineCurrentCharacter := true;
        made := true;
        token := MakeToken(kind);
      }
    }

    method SwitchSeparator() returns (made: bool, token: Token)
      requires Sound() && currentState == SeparatorOrError && !examineCurrentCharacter
      modifies `currentState, `positionInBuffer, buffer
      ensures Done(old(Lexer()), made, token)
    {
      made := false;
      token := *;
      var c := characterToExamine;
      if IsSeparator(c) {
        KeepCharacter();
        currentState := Start;
        made := true;
        token := MakeToken(Separator);
      } else if c == ' ' {
        currentState := SingleSpace;
        KeepCharacter();
      } else if c == '\t' {
        currentState := SingleTab;
        KeepCharacter();
      } else if c == NUL {
        currentState := State.EndState;
      } else {
        KeepCharacter();
        currentState := ErrorState;
      }
    }

    method SwitchWord() returns (made: bool, token: Token)
      requires Sound() && !examineCurrentCharacter && (currentState == IsPathName || currentState == IsKeyWord)
      modifies `currentState, `examineCurrentCharacter, `positionInBuffer, buffer
      ensures Done(old(Lexer()), made, token)
    {
      made := false;
      token := *;
      var c := characterToExamine;
      if (currentState == IsPathName && IsPathChar(c)) || (currentState == IsKeyWord && IsKeyChar(c)) {
        KeepCharacter();
      } else if currentState == IsKeyWord && c == '/' {
        currentState := IsPathName;
        KeepCharacter();
      } else {
        var kind := if currentState == IsKeyWord then KeyWord else String;
        currentState := SeparatorOrError;
        examineCurrentCharacter := true;
        made := true;
        token := MakeToken(kind);
      }
    }

    method SwitchString() returns (made: bool, token: Token)
      requires Sound() && !examineCurrentCharacter && (currentState == IsString || currentState == EndOfString)
      modifies `currentState, `examineCurrentCharacter, `positionInBuffer, buffer
      ensures Done(old(Lexer()), made, token)
    {
      made := false;
      token := *;
      var c := characterToExamine;
      if currentState == IsString {
        if c == '"' || c == NUL {
          currentState := EndOfString;
        } else {
          KeepCharacter();
        }
      } else if c == '"' {
        KeepCharacter();
        currentState := IsString;
      } else {
        currentState := Start;
        examineCurrentCharacter := true;
        made := true;
        token := MakeToken(String);
      }
    }

    method SwitchRun() returns (made: bool, token: Token)
      requires Sound() && !examineCurrentCharacter
      requires currentState == SingleSpace || currentState == IsMultiSpace || currentState == SingleTab ||
               currentState == IsMultiTab
      modifies `currentState, `examineCurrentCharacter, `positionInBuffer, buffer
      ensures Done(old(Lexer()), made, token)
    {
      made := false;
      token := *;
      var spaces := currentState == SingleSpace || currentState == IsMultiSpace;
      if characterToExamine == (if spaces then ' ' else '\t') {
        KeepCharacter();
        currentState := if spaces then IsMultiSpace else IsMultiTab;
      } else {
        var kind := match currentState case SingleSpace => Space case IsMultiSpace => MultiSpace case SingleTab => Tab
                    case _ => MultiTab;
        examineCurrentCharacter := true;
        currentState := Start;
        made := true;
        token := MakeToken(kind);
      }
    }

    /** One pass through the switch; a token is handed out or the automaton goes on. */
    method Switch() returns (made: bool, token: Token)
      requires Sound() && Lexer().Valid()
      modifies this, buffer
      ensures Sound() && Source() == old(Source())
      ensures LexStep(Source(), old(Lexer())) == if made then Emit(Lexer(), token) else Go(Lexer())
    {
      hide Get, Examine, IsLetter, IsSeparator;
      if currentState == State.EndState {
        made := true;
        token := MakeToken(EofToken);
      } else if currentState == ErrorState {
        currentState := State.EndState;
        made := true;
        token := MakeToken(InvalidCharacter);
      } else {
        if currentState == Start {
          positionInBuffer := 0;
          detectComments, substitutionsAllowed := true, true;
        }
        made, token := Look();
      }
    }

    /** Read a character and do what the state makes of it. */
    method Look() returns (made: bool, token: Token)
      requires Sound() && AtRest(Now()) && Reads(currentState) && (examineCurrentCharacter ==> Coherent(Now()))
      modifies this, buffer
      ensures Source() == old(Source()) && Done(Next(Source(), old(Lexer())), made, token)
    {
      hide Get, Examine, IsLetter, IsSeparator, Ahead, Coherent;
      NextLeft(Source(), Lexer());
      GetCharacter();
      if currentState == Start {
        made, token := SwitchStart();
      } else if currentState == OptionCheck || currentState == IsNegativeNumber || currentState == PositiveNumberCheck {
        made, token := SwitchSign();
      } else if currentState == IsNumber || currentState == IsRealNumber {
        made, token := SwitchNumber();
      } else if currentState == SeparatorOrError {
        made, token := SwitchSeparator();
      } else if currentState == IsPathName || currentState == IsKeyWord {
        made, token := SwitchWord();
      } else if currentState == EndOfString || currentState == IsString {
        made, token := SwitchString();
      } else {
        made, token := SwitchRun();
      }
    }

    /** GetToken: run the switch until it makes a token. */
    method GetToken() returns (token: Token)
      requires Sound() && Lexer().Valid()
      modifies this, buffer
      ensures Sound() && Source() == old(Source())
      ensures ScannerToken.GetToken(Source(), old(Lexer())) == Emit(Lexer(), token)
      ensures Settled(Lexer())
    {
      hide LexStep, Left, LexRank, Outstanding;
      GetTokenSettles(Source(), Lexer());
      ghost var src, goal := Source(), ScannerToken.GetToken(Source(), Lexer());
      var made := false;
      token := *;
      while !made
        invariant Sound() && Source() == src
        invariant made ==> goal == Emit(Lexer(), token)
        invariant !made ==> Lexer().Valid() && ScannerToken.GetToken(src, Lexer()) == goal
        decreases if made then 0 else 1, if made then 0 else Left(src, Lexer()), if made then 0 else LexRank(Lexer())
      {
        ghost var l := Lexer();
        LexStepValid(src, l);
        made, token := Switch();
        if !made {
          LexStepUsesUp(src, l);
        }
      }
    }
  }

  lemma AdvancedUnread(s: Contexts)
    requires s[0].pos < |s[0].buffer.text|
    ensures Unread(Advanced(s)) < Unread(s)
  {
    assert s[0].Rest()[1..] == Advanced(s)[0].Rest() && Advanced(s)[1..] == s[1..];
  }
}
