/** The input side of the scanner: where the characters come from, and what GetCharacter makes of them. */
module ScannerInput {

  const NUL: char := '\0'

  /** A C string: it ends at its first NUL, so it contains none. */
  type Text = s: string | NUL !in s witness ""

  /** A string in memory; two strings are the same buffer when their addresses are. */
  datatype Buffer = Buffer(address: int, text: Text)

  /** A buffer with the position of the next character to read. */
  datatype Context = Context(buffer: Buffer, pos: nat) {
    predicate Valid() { pos <= |buffer.text| }

    function Rest(): Text
      requires Valid()
    {
      buffer.text[pos..]
    }
  }

  /** The stack of contexts, current one first; the last one is the anchor, which is never removed. */
  type Contexts = s: seq<Context> | s != [] && forall i :: 0 <= i < |s| ==> s[i].Valid()
    witness [Context(Buffer(0, ""), 0)]

  function Advanced(s: Contexts): Contexts
    requires s[0].pos < |s[0].buffer.text|
  {
    s[0 := s[0].(pos := s[0].pos + 1)]
  }

  /** The number of characters not read yet. */
  function Unread(s: seq<Context>): nat
    requires forall i :: 0 <= i < |s| ==> s[i].Valid()
  {
    if s == [] then 0 else |s[0].Rest()| + Unread(s[1..])
  }

  datatype Fetched = Fetched(ch: char, stack: Contexts)

  /** Read one character: used-up contexts are closed, newlines are skipped, and the end of the anchor is NUL. */
  function Fetch(s: Contexts): (r: Fetched)
    decreases Unread(s), |s|
  {
    var c := s[0];
    if c.pos < |c.buffer.text| then
      if c.buffer.text[c.pos] == '\n' then Fetch(Advanced(s)) else Fetched(c.buffer.text[c.pos], Advanced(s))
    else if |s| > 1 then
      Fetch(s[1..])
    else
      Fetched(NUL, s)
  }

  /** The largest length of a replacement parameter. */
  function Longest(params: seq<Buffer>): (n: nat)
    ensures forall i :: 0 <= i < |params| ==> |params[i].text| <= n
  {
    if params == [] then 0
    else
      var n := Longest(params[..|params| - 1]);
      if n < |params[|params| - 1].text| then |params[|params| - 1].text| else n
  }

  /** What one character can lead to when room is left for `room` more contexts: itself and all it is replaced by. */
  function Weight(longest: nat, room: nat): (w: nat)
    ensures w > 0
  {
    if room == 0 then 1 else 1 + longest * Weight(longest, room - 1)
  }

  /** How many more contexts a stack leaves room for; memory holds that many besides the anchor. */
  function Room(s: seq<Context>, memory: nat): nat {
    if |s| <= memory + 1 then memory + 1 - |s| else 0
  }

  /** A bound on the characters that can still be read, those of replacement parameters included. */
  function Potential(s: seq<Context>, longest: nat, memory: nat): nat
    requires forall i :: 0 <= i < |s| ==> s[i].Valid()
  {
    if s == [] then 0
    else |s[0].Rest()| * Weight(longest, Room(s, memory)) + Potential(s[1..], longest, memory)
  }

  /** Whatever is read is paid for with its full weight. */
  lemma {:induction false} FetchUsesUp(s: Contexts, longest: nat, memory: nat)
    ensures var r := Fetch(s);
            && Potential(r.stack, longest, memory) +
               (if r.ch != NUL then Weight(longest, Room(r.stack, memory)) else 0) <= Potential(s, longest, memory)
            && |r.stack| <= |s|
    decreases Unread(s), |s|
  {
    var c := s[0];
    if c.pos < |c.buffer.text| {
      var t := Advanced(s);
      assert s[0].Rest()[1..] == t[0].Rest() && t[1..] == s[1..];
      var w := Weight(longest, Room(s, memory));
      assert |t[0].Rest()| * w + w == |s[0].Rest()| * w;
      if c.buffer.text[c.pos] == '\n' {
        FetchUsesUp(t, longest, memory);
      }
    } else if |s| > 1 {
      FetchUsesUp(s[1..], longest, memory);
    }
  }

  datatype InputState =
    | Normal | Normal2 | EndState
    | CommentFound | CommentFound2 | NotComment | StartCommentCheck | EmbeddedCommentCheck | FindEndOfComment
    | StartSubstitution | NotSubstitution | SubstitutionFound
    | SkipInitialSpaces | GetReplacementID | SkipEndSpaces | DoSubstitution

  predicate InComment(s: InputState) {
    s.CommentFound? || s.CommentFound2? || s.EmbeddedCommentCheck? || s.FindEndOfComment?
  }

  /** What is fixed during one call of GetCharacter. */
  datatype Setting = Setting(params: seq<Buffer>, memory: nat, comments: bool, substitutions: bool)

  /** The variables that survive from call to call. */
  datatype Input = Input(stack: Contexts, state: InputState, next: char, examine: char, pushed: bool, injected: bool)

  /** The automaton in the middle of a call: with the number of open comments and the number being read. */
  datatype Machine = Machine(input: Input, nesting: nat, number: nat) {
    /** The number of open comments is not 0 inside a comment, and a number is extended by digits only. */
    predicate Consistent() {
      && (InComment(input.state) ==> nesting > 0)
      && (input.state == GetReplacementID ==> IsDigit(input.next))
    }
  }

  datatype Outcome = Deliver(input: Input) | Proceed(machine: Machine)

  predicate IsDigit(c: char) { '0' <= c <= '9' }

  /** Extending a 32-bit unsigned number by a digit. */
  function Extended(number: nat, digit: char): nat
    requires IsDigit(digit)
  {
    (number * 10 + (digit as int - '0' as int)) % 0x1_0000_0000
  }

  /** Read a character and go to the state that it selects. */
  function ReadInto(i: Input, to: char -> InputState): Input {
    var r := Fetch(i.stack);
    i.(stack := r.stack, next := r.ch, state := to(r.ch))
  }

  function AfterNormal(g: Setting, i: Input, m: Machine): Outcome {
    if g.comments && i.next == '/' then
      Proceed(m.(input := i.(state := StartCommentCheck, pushed := false)))
    else if g.substitutions && i.next == '$' then
      Proceed(m.(input := i.(state := StartSubstitution, pushed := false)))
    else if i.next == NUL then
      Proceed(m.(input := i.(state := EndState, pushed := false)))
    else if i.pushed then
      Deliver(i.(pushed := false, injected := false, state := if i.injected then Normal2 else Normal))
    else
      Deliver(i.(examine := i.next, state := Normal, injected := false))
  }

  function CommentState(c: char): InputState {
    if c == NUL then EndState else if c == '*' then FindEndOfComment
    else if c == '/' then EmbeddedCommentCheck else CommentFound
  }

  function SpaceState(c: char): InputState {
    if c == ' ' then SkipInitialSpaces else if IsDigit(c) then GetReplacementID else EndState
  }

  function DigitState(c: char): InputState {
    if c == ' ' then SkipEndSpaces else if c == ')' then DoSubstitution
    else if IsDigit(c) then GetReplacementID else EndState
  }

  function ClosingState(c: char): InputState {
    if c == ')' then DoSubstitution else if c == ' ' then SkipEndSpaces else EndState
  }

  /** The replacement parameter of that number becomes the current context; otherwise the input ends. */
  function Substituted(g: Setting, i: Input, number: nat): (r: Input)
    ensures r.state == Normal || r.state == EndState
  {
    if 0 < number <= |g.params| && g.params[number - 1].address != i.stack[0].buffer.address && Room(i.stack, g.memory) > 0
    then i.(state := Normal, stack := [Context(g.params[number - 1], 0)] + i.stack)
    else i.(state := EndState)
  }

  /** One pass through the switch in the states of a comment; StartCommentCheck has seen a '/'. */
  function StepComment(m: Machine): (r: Machine)
    requires m.Consistent()
    ensures r.Consistent()
  {
    var i := m.input;
    match i.state
    case StartCommentCheck =>
      var j := ReadInto(i, c => if c == NUL then EndState else if c == '*' then CommentFound else NotComment);
      m.(input := j, nesting := if j.next == '*' then m.nesting + 1 else m.nesting)
    case EmbeddedCommentCheck =>
      var j := ReadInto(i, c => if c == NUL then EndState else CommentFound);
      m.(input := j, nesting := if j.next == '*' then m.nesting + 1 else m.nesting)
    case FindEndOfComment =>
      var j := ReadInto(i, c => if c == NUL then EndState else if c == '/' && m.nesting == 1 then Normal else CommentFound2);
      m.(input := j, nesting := if j.next == '/' then m.nesting - 1 else m.nesting)
    case CommentFound => m.(input := ReadInto(i, CommentState))
    case CommentFound2 => m.(input := i.(state := CommentState(i.next)))
    case _ => m
  }

  /** One pass through the switch in the states of a substitution command; StartSubstitution has seen a '$'. */
  function StepSubstitution(g: Setting, m: Machine): (r: Machine)
    requires m.Consistent()
    ensures !InComment(m.input.state) ==> r.Consistent()
  {
    var i := m.input;
    match i.state
    case StartSubstitution =>
      m.(input := ReadInto(i, c => if c == NUL then EndState else if c == '(' then SubstitutionFound else NotSubstitution))
    case SubstitutionFound => m.(input := i.(state := SkipInitialSpaces), number := 0)
    case SkipInitialSpaces => m.(input := ReadInto(i, SpaceState))
    case GetReplacementID => m.(input := ReadInto(i, DigitState), number := Extended(m.number, i.next))
    case SkipEndSpaces => m.(input := ReadInto(i, ClosingState))
    case _ => m.(input := Substituted(g, i, m.number))
  }

  /** One pass through the switch. */
  function Step(g: Setting, m: Machine): (r: Outcome)
    requires m.Consistent()
    ensures r.Proceed? ==> r.machine.Consistent()
  {
    var i := m.input;
    match i.state
    case Normal => AfterNormal(g, ReadInto(i, c => Normal2), m)
    case Normal2 => AfterNormal(g, i, m)
    case EndState => Deliver(i.(examine := NUL))
    case NotComment => Deliver(i.(examine := '/', injected := true, state := Normal2))
    case NotSubstitution => Deliver(i.(examine := '$', injected := true, state := Normal2))
    case StartCommentCheck | CommentFound | CommentFound2 | EmbeddedCommentCheck | FindEndOfComment => Proceed(StepComment(m))
    case _ => Proceed(StepSubstitution(g, m))
  }

  function Rank(s: InputState): nat {
    match s
    case EndState => 0
    case SubstitutionFound | CommentFound2 | Normal2 => 2
    case Normal => 3
    case DoSubstitution => 4
    case _ => 1
  }

  /** What can still be read, with what a substitution that is about to be made will add. */
  function Fuel(g: Setting, i: Input): nat {
    var longest := Longest(g.params);
    Potential(i.stack, longest, g.memory) +
    if i.state == DoSubstitution then Weight(longest, Room(i.stack, g.memory)) - 1 else 0
  }

  lemma SubstitutionUsesUp(g: Setting, i: Input, number: nat)
    requires i.state == DoSubstitution
    ensures Fuel(g, Substituted(g, i, number)) <= Fuel(g, i)
  {
    var longest := Longest(g.params);
    if Substituted(g, i, number).state == Normal {
      var t := [Context(g.params[number - 1], 0)] + i.stack;
      assert t[1..] == i.stack;
      ProductMonotone(|g.params[number - 1].text|, longest, Weight(longest, Room(t, g.memory)));
    }
  }

  lemma ProductMonotone(a: nat, b: nat, w: nat)
    requires a <= b
    ensures a * w <= b * w
  {
  }

  /** Every pass through the switch uses up characters or comes closer to a state that reads or returns. */
  lemma StepUsesUp(g: Setting, m: Machine)
    requires m.Consistent() && Step(g, m).Proceed?
    ensures var n := Step(g, m).machine;
            Fuel(g, n.input) < Fuel(g, m.input) ||
            (Fuel(g, n.input) == Fuel(g, m.input) && Rank(n.input.state) < Rank(m.input.state))
  {
    hide Potential, Weight, Fetch, Longest, Substituted;
    FetchUsesUp(m.input.stack, Longest(g.params), g.memory);
    if m.input.state == DoSubstitution {
      SubstitutionUsesUp(g, m.input, m.number);
      SubstitutedState(g, m.input, m.number);
    }
  }

  lemma SubstitutedState(g: Setting, i: Input, number: nat)
    ensures var j := Substituted(g, i, number);
            j.state in {Normal, EndState} && j.pushed == i.pushed && j.injected == i.injected
  {
  }

  /** Run the automaton until it delivers a character. */
  function Scan(g: Setting, m: Machine): Input
    requires m.Consistent()
    decreases Fuel(g, m.input), Rank(m.input.state)
  {
    match Step(g, m)
    case Deliver(i) => i
    case Proceed(n) => StepUsesUp(g, m); Scan(g, n)
  }

  lemma ScanProceeds(g: Setting, m: Machine, n: Machine)
    requires m.Consistent() && Step(g, m) == Proceed(n)
    ensures n.Consistent() && Scan(g, m) == Scan(g, n)
  {
  }

  /** One call of GetCharacter. */
  function Get(g: Setting, i: Input): Input
    requires i.state in {Normal, Normal2, EndState}
  {
    Scan(g, Machine(if i.pushed then i.(state := Normal2) else i, 0, 0))
  }

  /** The states that GetCharacter leaves behind. */
  predicate AtRest(i: Input) {
    i.state in {Normal, Normal2, EndState}
  }

  /** A bound on the calls of GetCharacter to come: characters to read, and one that was read but not delivered yet. */
  function Ahead(g: Setting, i: Input): nat {
    2 * Fuel(g, i) + if i.state == Normal2 || i.injected then 1 else 0
  }

  /** What may be ahead of a machine in the middle of a call. */
  function AheadOf(g: Setting, i: Input): nat {
    if i.state in {NotComment, NotSubstitution} then 2 * Fuel(g, i) + 2 else Ahead(g, i)
  }

  predicate MustAdvance(i: Input, r: Input) {
    if i.pushed then !i.injected else r.examine != NUL
  }

  lemma StepAhead(g: Setting, m: Machine)
    requires m.Consistent() && Step(g, m).Proceed? && (m.input.pushed ==> m.input.state == Normal2)
    ensures var i := Step(g, m).machine.input;
            && !i.pushed && AheadOf(g, i) <= AheadOf(g, m.input)
            && (m.input.pushed && !m.input.injected ==> AheadOf(g, i) < AheadOf(g, m.input))
  {
    hide Potential, Weight, Fetch, Longest, Substituted;
    FetchUsesUp(m.input.stack, Longest(g.params), g.memory);
    if m.input.state == DoSubstitution {
      SubstitutionUsesUp(g, m.input, m.number);
      SubstitutedState(g, m.input, m.number);
    }
  }

  lemma DeliverAhead(g: Setting, m: Machine)
    requires m.Consistent() && Step(g, m).Deliver? && (m.input.pushed ==> m.input.state == Normal2)
    ensures var i := Step(g, m).input;
            && !i.pushed && AtRest(i) && Ahead(g, i) <= AheadOf(g, m.input)
            && (MustAdvance(m.input, i) ==> Ahead(g, i) < AheadOf(g, m.input))
  {
    hide Potential, Weight, Fetch, Longest, Substituted;
    FetchUsesUp(m.input.stack, Longest(g.params), g.memory);
  }

  lemma {:induction false} ScanAhead(g: Setting, m: Machine)
    requires m.Consistent() && (m.input.pushed ==> m.input.state == Normal2)
    ensures var r := Scan(g, m);
            && !r.pushed && AtRest(r) && Ahead(g, r) <= AheadOf(g, m.input)
            && (MustAdvance(m.input, r) ==> Ahead(g, r) < AheadOf(g, m.input))
    decreases Fuel(g, m.input), Rank(m.input.state)
  {
    match Step(g, m)
    case Deliver(i) => DeliverAhead(g, m);
    case Proceed(n) =>
      hide Step, Fuel;
      StepUsesUp(g, m);
      StepAhead(g, m);
      ScanAhead(g, n);
  }

  /** A call uses up what is ahead, unless it repeats the character that was put back or finds the end. */
  lemma GetAhead(g: Setting, i: Input)
    requires AtRest(i)
    ensures var r := Get(g, i);
            && !r.pushed && AtRest(r)
            && Ahead(g, r) <= Ahead(g, i)
            && (r.examine != NUL && (!i.pushed || r.examine != i.examine) ==> Ahead(g, r) < Ahead(g, i))
  {
    var m := Machine(if i.pushed then i.(state := Normal2) else i, 0, 0);
    ScanAhead(g, m);
    if i.pushed && Step(g, m).Proceed? {
      StepAhead(g, m);
      ScanAhead(g, Step(g, m).machine);
    }
  }

  /** A character that was not made up by the automaton is still the last one read. */
  predicate Coherent(i: Input) {
    i.examine in {NUL, '/', '$'} || i.next == i.examine
  }

  lemma {:induction false} ScanCoherent(g: Setting, m: Machine)
    requires m.Consistent() && (m.input.pushed ==> m.input.state == Normal2 && Coherent(m.input))
    ensures Coherent(Scan(g, m))
    decreases Fuel(g, m.input), Rank(m.input.state)
  {
    StepCoherent(g, m);
    match Step(g, m)
    case Deliver(i) =>
    case Proceed(n) =>
      hide Step, Fuel;
      StepUsesUp(g, m);
      ScanCoherent(g, n);
  }

  lemma StepCoherent(g: Setting, m: Machine)
    requires m.Consistent() && (m.input.pushed ==> m.input.state == Normal2 && Coherent(m.input))
    ensures match Step(g, m)
            case Deliver(i) => Coherent(i)
            case Proceed(n) => !n.input.pushed
  {
    hide Fetch;
  }

  lemma GetCoherent(g: Setting, i: Input)
    requires AtRest(i) && (i.pushed ==> Coherent(i))
    ensures Coherent(Get(g, i))
  {
    ScanCoherent(g, Machine(if i.pushed then i.(state := Normal2) else i, 0, 0));
  }

  /** The character means something to the scanner itself: the end, or the start of a comment or a substitution. */
  predicate Active(g: Setting, c: char) {
    c == NUL || (g.comments && c == '/') || (g.substitutions && c == '$')
  }

  /**
   * A character that was put back is delivered again when the last character read has no meaning of its own. Otherwise it
   * is lost, which happens to a made-up '/' or '$': the call is the one that would have been made without putting back.
   */
  lemma PutBackDelivered(g: Setting, i: Input)
    requires AtRest(i) && i.pushed
    ensures !Active(g, i.next) ==>
              Get(g, i) == i.(pushed := false, injected := false, state := if i.injected then Normal2 else Normal)
    ensures Active(g, i.next) ==> Get(g, i) == Get(g, i.(pushed := false, state := Normal2))
    ensures i.next == NUL ==> Get(g, i).examine == NUL && Get(g, i).state == EndState
  {
    var m, plain := Machine(i.(state := Normal2), 0, 0), Machine(i.(pushed := false, state := Normal2), 0, 0);
    if Active(g, i.next) {
      assert Step(g, m) == Step(g, plain) && Step(g, m).Proceed?;
      var n := Step(g, m).machine;
      ScanProceeds(g, m, n);
      ScanProceeds(g, plain, n);
      if i.next == NUL {
        assert Step(g, n).Deliver?;
      }
    }
  }
}
