/** Substitution commands: GetCharacter delivers the recursive expansion of the command text, and then the end. */
module ScannerExpansion {
  import opened ScannerInput
  import opened ScannerComments

  /**
   * A piece of a text: an ordinary character, a '/' or '$' that starts nothing, the end of a line, a comment, or a command
   * $(n) with spaces around its digits.
   */
  datatype Piece =
    | Lit(c: char) | Slash | Dollar | Newline | Comment(body: Body) | Ref(left: nat, digits: string, right: nat)

  function Spaces(n: nat): (s: string)
    ensures |s| == n && forall k :: 0 <= k < n ==> s[k] == ' '
  {
    seq(n, k => ' ')
  }

  function Render(p: Piece): (s: string)
    ensures s != ""
  {
    match p
    case Lit(c) => [c]
    case Slash => "/"
    case Dollar => "$"
    case Newline => "\n"
    case Comment(b) => "/*" + (ScannerComments.Render(b) + "*/")
    case Ref(l, d, r) => "$(" + Spaces(l) + d + Spaces(r) + ")"
  }

  function RenderAll(ps: seq<Piece>): string {
    if ps == [] then "" else Render(ps[0]) + RenderAll(ps[1..])
  }

  predicate AllDigits(s: string) { forall k :: 0 <= k < |s| ==> '0' <= s[k] <= '9' }

  /** The number that digits spell. */
  function Decimal(digits: string): nat
    requires AllDigits(digits)
  {
    if digits == "" then 0
    else
      var last := |digits| - 1;
      10 * Decimal(digits[..last]) + (digits[last] as int - 48)
  }

  predicate Proper(p: Piece) {
    match p
    case Lit(c) => c != '$' && c != '/' && c != '\n' && c != NUL
    case Comment(b) => ScannerComments.Proper(b) && Reopened(b) == 0
    case Ref(_, d, _) => d != "" && AllDigits(d)
    case _ => true
  }

  /** The number of a command, in a 32-bit unsigned variable. */
  function Number(p: Piece): nat
    requires p.Ref? && Proper(p)
  {
    Decimal(p.digits) % 0x1_0000_0000
  }

  /** The first character of a text that is not the end of a line; behind the text comes `after`. */
  function First(ps: seq<Piece>, after: char): char {
    if ps == [] then after else if ps[0].Newline? then First(ps[1..], after) else Render(ps[0])[0]
  }

  /** The replacement parameters as buffers and as the pieces that their texts consist of. */
  datatype Table = Table(params: seq<Buffer>, pieces: seq<seq<Piece>>)

  ghost predicate Spelled(t: Table) {
    |t.params| == |t.pieces| && forall k :: 0 <= k < |t.params| ==> t.params[k].text == RenderAll(t.pieces[k])
  }

  /**
   * Proper pieces: a '/' is not followed by a '*', a '$' not by a '(', and the commands name parameters of a rank below
   * the given one, whose texts are such pieces again. So no text leads back to itself, not even by way of others. The
   * rank is that of the buffer, known by its address.
   */
  ghost predicate Refers(t: Table, rank: int -> nat, ps: seq<Piece>, below: nat, after: char)
    requires Spelled(t)
    decreases below, |ps|
  {
    ps == [] ||
    (&& Proper(ps[0]) && Refers(t, rank, ps[1..], below, after)
     && var next := First(ps[1..], after);
        match ps[0]
        case Slash => next != '*'
        case Dollar => next != '('
        case Ref(_, _, _) =>
          && 0 < Number(ps[0]) <= |t.params|
          && var n := Number(ps[0]) - 1;
             rank(t.params[n].address) < below && Refers(t, rank, t.pieces[n], rank(t.params[n].address), next)
        case _ => true)
  }

  /**
   * The recursive expansion of a text: commands are replaced, comments and the ends of lines left out. A '/' or '$' with
   * nothing behind it is lost.
   */
  ghost function Expand(t: Table, rank: int -> nat, ps: seq<Piece>, below: nat, after: char): string
    requires Spelled(t) && Refers(t, rank, ps, below, after)
    decreases below, |ps|, 1
  {
    if ps == [] then "" else Contribution(t, rank, ps, below, after) + Expand(t, rank, ps[1..], below, after)
  }

  /** What the first piece of a text contributes to its expansion. */
  ghost function Contribution(t: Table, rank: int -> nat, ps: seq<Piece>, below: nat, after: char): string
    requires Spelled(t) && Refers(t, rank, ps, below, after) && ps != []
    decreases below, |ps|, 0
  {
    var next := First(ps[1..], after);
    match ps[0]
    case Lit(c) => [c]
    case Slash => if next == NUL then "" else "/"
    case Dollar => if next == NUL then "" else "$"
    case Ref(_, _, _) =>
      var n := Number(ps[0]) - 1;
      Expand(t, rank, t.pieces[n], rank(t.params[n].address), next)
    case _ => ""
  }

  /** The first character of what is left in a stack of contexts. */
  function FirstOf(plan: seq<seq<Piece>>): char {
    if plan == [] then NUL else First(plan[0], FirstOf(plan[1..]))
  }

  /** What is left to read in each context, as pieces; the ranks go down towards the top, and the memory allows for it. */
  ghost predicate Planned(t: Table, rank: int -> nat, memory: nat, s: seq<Context>, plan: seq<seq<Piece>>)
    requires Spelled(t)
  {
    && |plan| == |s|
    && (s != [] ==>
          && s[0].Valid() && s[0].Rest() == RenderAll(plan[0])
          && Refers(t, rank, plan[0], rank(s[0].buffer.address), FirstOf(plan[1..]))
          && rank(s[0].buffer.address) + (|s| - 1) <= memory
          && Planned(t, rank, memory, s[1..], plan[1..]))
  }

  /** What is left to deliver: the expansions of the rests of all contexts, the top first. */
  ghost function Pending(t: Table, rank: int -> nat, memory: nat, s: seq<Context>, plan: seq<seq<Piece>>): string
    requires Spelled(t) && Planned(t, rank, memory, s, plan)
  {
    if s == [] then ""
    else
      Expand(t, rank, plan[0], rank(s[0].buffer.address), FirstOf(plan[1..])) +
      Pending(t, rank, memory, s[1..], plan[1..])
  }

  // ----- reading one command

  /** The number of the automaton, extended by one digit after the other. */
  function Value(number: nat, digits: string): nat
    requires AllDigits(digits)
    decreases |digits|
  {
    if digits == "" then number else Value(Extended(number, digits[0]), digits[1..])
  }

  lemma {:induction false} ValueSnoc(number: nat, digits: string, c: char)
    requires AllDigits(digits) && '0' <= c <= '9'
    ensures AllDigits(digits + [c]) && Value(number, digits + [c]) == Extended(Value(number, digits), c)
    decreases |digits|
  {
    hide Extended;
    if digits != "" {
      ValueSnoc(Extended(number, digits[0]), digits[1..], c);
      assert (digits + [c])[1..] == digits[1..] + [c];
    } else {
      assert digits + [c] == [c] && [c][1..] == "";
    }
  }

  lemma DigitAppended(x: nat, c: char)
    requires '0' <= c <= '9'
    ensures Extended(x % 0x1_0000_0000, c) == (10 * x + (c as int - 48)) % 0x1_0000_0000
  {
    assert x == 0x1_0000_0000 * (x / 0x1_0000_0000) + x % 0x1_0000_0000;
    var q, rest := 10 * (x / 0x1_0000_0000), 10 * (x % 0x1_0000_0000) + (c as int - 48);
    assert 10 * x + (c as int - 48) == rest + 0x1_0000_0000 * q;
  }

  /** The automaton reads digits as a decimal number of 32 bits. */
  lemma {:induction false} ValueIsDecimal(digits: string)
    requires AllDigits(digits)
    ensures Value(0, digits) == Decimal(digits) % 0x1_0000_0000
    decreases |digits|
  {
    hide Extended, Value;
    if digits != "" {
      var front, c := digits[..|digits| - 1], digits[|digits| - 1];
      ValueIsDecimal(front);
      ValueSnoc(0, front, c);
      assert digits == front + [c];
      DigitAppended(Decimal(front), c);
    } else {
      NoDigits();
    }
  }

  lemma NoDigits()
    ensures Value(0, "") == 0 && Decimal("") == 0
  {
  }

  /** The automaton inside a command, k characters into the current context of i. */
  function Inner(i: Input, k: nat, state: InputState, next: char, number: nat): Machine
    requires k <= |i.stack[0].Rest()|
  {
    Machine(i.(stack := Skipped(i.stack, k), state := state, next := next), 0, number)
  }

  /** One read inside a command. */
  lemma CommandRead(g: Setting, i: Input, k: nat, state: InputState, next: char, number: nat, c: char)
    requires Stands(i, k, [c]) && c != '\n' && state in {SkipInitialSpaces, GetReplacementID, SkipEndSpaces}
    requires state == GetReplacementID ==> IsDigit(next)
    ensures var to := if state == SkipInitialSpaces then SpaceState(c) else if state == GetReplacementID then DigitState(c)
                      else ClosingState(c);
            var number' := if state == GetReplacementID then Extended(number, next) else number;
            && Inner(i, k, state, next, number).Consistent() && Inner(i, k + 1, to, c, number').Consistent()
            && Scan(g, Inner(i, k, state, next, number)) == Scan(g, Inner(i, k + 1, to, c, number'))
  {
    assert i.stack[0].Rest()[k..k + 1][0] == c;
    FetchSkipped(i.stack, k);
    var to := if state == SkipInitialSpaces then SpaceState(c) else if state == GetReplacementID then DigitState(c)
              else ClosingState(c);
    var number' := if state == GetReplacementID then Extended(number, next) else number;
    assert Step(g, Inner(i, k, state, next, number)) == Proceed(Inner(i, k + 1, to, c, number'));
  }

  lemma StandsFirst(i: Input, k: nat, p: string)
    requires Stands(i, k, p) && p != ""
    ensures Stands(i, k, [p[0]]) && Stands(i, k + 1, p[1..])
  {
    assert p == [p[0]] + p[1..];
    StandsApart(i, k, [p[0]], p[1..]);
  }

  lemma {:induction false} LeadingSpaces(g: Setting, i: Input, k: nat, next: char, n: nat, number: nat)
    requires Stands(i, k, Spaces(n))
    ensures Inner(i, k, SkipInitialSpaces, next, number).Consistent()
    ensures Scan(g, Inner(i, k, SkipInitialSpaces, next, number)) ==
            Scan(g, Inner(i, k + n, SkipInitialSpaces, if n == 0 then next else ' ', number))
    decreases n
  {
    hide Scan, Step, Stands;
    StandsBound(i, k, Spaces(n));
    if n > 0 {
      StandsFirst(i, k, Spaces(n));
      assert Spaces(n)[1..] == Spaces(n - 1);
      CommandRead(g, i, k, SkipInitialSpaces, next, number, ' ');
      LeadingSpaces(g, i, k + 1, ' ', n - 1, number);
    }
  }

  lemma StandsBound(i: Input, k: nat, p: string)
    requires Stands(i, k, p)
    ensures k + |p| <= |i.stack[0].Rest()|
  {
  }

  /** Where the character behind the digits and spaces of a command leads to. */
  function Behind(c: char): InputState {
    if c == ')' then DoSubstitution else EndState
  }

  /** Spaces and the character behind them, read behind the digits or behind another space. */
  lemma {:induction false} TrailingSpaces(g: Setting, i: Input, k: nat, n: nat, c: char, number: nat)
    requires Stands(i, k, Spaces(n) + [c]) && c != ' ' && c != '\n'
    ensures k + n + 1 <= |i.stack[0].Rest()|
    ensures Scan(g, Inner(i, k, SkipEndSpaces, ' ', number)) == Scan(g, Inner(i, k + n + 1, Behind(c), c, number))
    decreases n
  {
    hide Scan, Step, Stands;
    StandsBound(i, k, Spaces(n) + [c]);
    StandsFirst(i, k, Spaces(n) + [c]);
    if n > 0 {
      assert (Spaces(n) + [c])[1..] == Spaces(n - 1) + [c];
      CommandRead(g, i, k, SkipEndSpaces, ' ', number, ' ');
      TrailingSpaces(g, i, k + 1, n - 1, c, number);
    } else {
      CommandRead(g, i, k, SkipEndSpaces, ' ', number, c);
    }
  }

  /** The digits, of which the first was read already, the spaces and the character behind them. */
  lemma {:induction false} Digits(g: Setting, i: Input, k: nat, digits: string, n: nat, c: char, number: nat)
    requires digits != "" && AllDigits(digits) && Stands(i, k, digits[1..] + (Spaces(n) + [c]))
    requires c != ' ' && c != '\n' && (n == 0 ==> !('0' <= c <= '9'))
    ensures k + |digits| + n <= |i.stack[0].Rest()| && Inner(i, k, GetReplacementID, digits[0], number).Consistent()
    ensures Scan(g, Inner(i, k, GetReplacementID, digits[0], number)) ==
            Scan(g, Inner(i, k + |digits| + n, Behind(c), c, Value(number, digits)))
    decreases |digits|
  {
    hide Scan, Step, Stands, Extended;
    var rest := digits[1..] + (Spaces(n) + [c]);
    StandsBound(i, k, rest);
    StandsFirst(i, k, rest);
    var number' := Extended(number, digits[0]);
    CommandRead(g, i, k, GetReplacementID, digits[0], number, rest[0]);
    if |digits| > 1 {
      assert rest[1..] == digits[1..][1..] + (Spaces(n) + [c]);
      Digits(g, i, k + 1, digits[1..], n, c, number');
    } else {
      assert digits[1..] == "" && Value(number, digits) == number' && rest == Spaces(n) + [c];
      if n > 0 {
        assert rest[1..] == Spaces(n - 1) + [c];
        TrailingSpaces(g, i, k + 1, n - 1, c, number');
      }
    }
  }

  /** Spaces, digits and spaces behind an opening parenthesis, and the character behind them. */
  lemma CommandBody(g: Setting, i: Input, k: nat, next: char, l: nat, d: string, r: nat, c: char)
    requires d != "" && AllDigits(d) && Stands(i, k, Spaces(l) + (d + (Spaces(r) + [c])))
    requires c != ' ' && c != '\n' && (r == 0 ==> !('0' <= c <= '9'))
    ensures k + l + |d| + r + 1 <= |i.stack[0].Rest()|
    ensures Scan(g, Inner(i, k, SkipInitialSpaces, next, 0)) ==
            Scan(g, Inner(i, k + l + |d| + r + 1, Behind(c), c, Decimal(d) % 0x1_0000_0000))
  {
    hide Scan, Step, Stands, Decimal, Value, Spaces, Extended;
    ValueIsDecimal(d);
    BodyStands(i, k, Spaces(l), d, Spaces(r) + [c]);
    LeadingSpaces(g, i, k, next, l, 0);
    CommandRead(g, i, k + l, SkipInitialSpaces, if l == 0 then next else ' ', 0, d[0]);
    Digits(g, i, k + l + 1, d, r, c, 0);
  }

  lemma BodyStands(i: Input, k: nat, spaces: string, d: string, rest: string)
    requires d != "" && Stands(i, k, spaces + (d + rest))
    ensures k + |spaces| + |d| + |rest| <= |i.stack[0].Rest()| && Stands(i, k, spaces)
    ensures Stands(i, k + |spaces|, [d[0]]) && Stands(i, k + |spaces| + 1, d[1..] + rest)
  {
    hide Stands;
    StandsBound(i, k, spaces + (d + rest));
    StandsApart(i, k, spaces, d + rest);
    StandsFirst(i, k + |spaces|, d + rest);
    assert (d + rest)[0] == d[0] && (d + rest)[1..] == d[1..] + rest;
  }

  predicate UsesNumber(state: InputState) {
    state in {SkipInitialSpaces, GetReplacementID, SkipEndSpaces, DoSubstitution}
  }

  lemma StepNumberFree(g: Setting, m: Machine, number: nat)
    requires m.Consistent() && !UsesNumber(m.input.state)
    ensures var m' := m.(number := number);
            && m'.Consistent() && Step(g, m').Deliver? == Step(g, m).Deliver?
            && match Step(g, m)
               case Deliver(_) => Step(g, m') == Step(g, m)
               case Proceed(n) => Step(g, m') == Step(g, m) ||
                                  (!UsesNumber(n.input.state) && Step(g, m') == Proceed(n.(number := number)))
  {
  }

  /** Outside of a command the number of an earlier one plays no role. */
  lemma {:induction false} NumberFree(g: Setting, m: Machine, number: nat)
    requires m.Consistent() && !UsesNumber(m.input.state)
    ensures Scan(g, m) == Scan(g, m.(number := number))
    decreases Fuel(g, m.input), Rank(m.input.state)
  {
    StepNumberFree(g, m, number);
    match Step(g, m)
    case Deliver(_) =>
    case Proceed(n) =>
      StepUsesUp(g, m);
      hide Step;
      if Step(g, m.(number := number)) != Proceed(n) {
        NumberFree(g, n, number);
      }
  }

  lemma CommandStarted(g: Setting, i: Input)
    requires g.substitutions && i.state == Normal && !i.pushed && Stands(i, 0, "$(")
    ensures Scan(g, Machine(i, 0, 0)) == Scan(g, Inner(i, 2, SkipInitialSpaces, '(', 0))
  {
    hide Scan;
    var t := i.stack[0].Rest();
    assert t[0..2][0] == '$' && t[0..2][1] == '(' && Skipped(i.stack, 0) == i.stack;
    FetchSkipped(i.stack, 0);
    FetchSkipped(i.stack, 1);
    ScanProceeds(g, Machine(i, 0, 0), Inner(i, 1, StartSubstitution, '$', 0));
    ScanProceeds(g, Inner(i, 1, StartSubstitution, '$', 0), Inner(i, 2, SubstitutionFound, '(', 0));
    ScanProceeds(g, Inner(i, 2, SubstitutionFound, '(', 0), Inner(i, 2, SkipInitialSpaces, '(', 0));
  }

  /** The stack once the command p at the current position has been replaced. */
  function Replaced(g: Setting, i: Input, p: Piece): Contexts
    requires p.Ref? && Proper(p) && 0 < Number(p) <= |g.params| && |Render(p)| <= |i.stack[0].Rest()|
  {
    [Context(g.params[Number(p) - 1], 0)] + Skipped(i.stack, |Render(p)|)
  }

  lemma SubstitutionMade(g: Setting, i: Input, p: Piece)
    requires p.Ref? && Proper(p) && 0 < Number(p) <= |g.params| && |Render(p)| <= |i.stack[0].Rest()|
    requires i.state == Normal && !i.pushed
    requires g.params[Number(p) - 1].address != i.stack[0].buffer.address && Room(i.stack, g.memory) > 0
    ensures Scan(g, Inner(i, |Render(p)|, DoSubstitution, ')', Number(p))) ==
            Scan(g, Machine(i.(stack := Replaced(g, i, p)), 0, 0))
  {
    var j := i.(stack := Replaced(g, i, p));
    assert Step(g, Inner(i, |Render(p)|, DoSubstitution, ')', Number(p))) == Proceed(Machine(j.(next := ')'), 0, Number(p)));
    NumberFree(g, Machine(j.(next := ')'), 0, Number(p)), 0);
    NextIsOverwritten(g, j.(next := ')'), j);
  }

  lemma CommandScanned(g: Setting, i: Input, p: Piece)
    requires g.substitutions && i.state == Normal && !i.pushed && p.Ref? && Proper(p) && Stands(i, 0, Render(p))
    ensures |Render(p)| <= |i.stack[0].Rest()|
    ensures Get(g, i) == Scan(g, Inner(i, |Render(p)|, DoSubstitution, ')', Number(p)))
  {
    hide Scan, Step, Stands, Decimal;
    var body := Spaces(p.left) + (p.digits + (Spaces(p.right) + [')']));
    StandsBound(i, 0, Render(p));
    assert Render(p) == "$(" + body;
    StandsApart(i, 0, "$(", body);
    CommandStarted(g, i);
    CommandBody(g, i, 2, '(', p.left, p.digits, p.right, ')');
  }

  /** One call at the start of a command gives what it would give with the parameter pushed in its place. */
  lemma CommandReplaced(g: Setting, i: Input, p: Piece)
    requires g.substitutions && i.state == Normal && !i.pushed && p.Ref? && Proper(p) && Stands(i, 0, Render(p))
    requires 0 < Number(p) <= |g.params| && g.params[Number(p) - 1].address != i.stack[0].buffer.address
    requires |i.stack| <= g.memory
    ensures |Render(p)| <= |i.stack[0].Rest()| && Get(g, i) == Get(g, i.(stack := Replaced(g, i, p)))
  {
    hide Scan, Step, Stands, Replaced, Render, Decimal;
    CommandScanned(g, i, p);
    SubstitutionMade(g, i, p);
  }

  lemma EndReached(g: Setting, m: Machine)
    requires m.input.state == EndState
    ensures m.Consistent() && Scan(g, m) == m.input.(examine := NUL)
  {
  }

  /**
   * Otherwise the input ends: when there is no parameter of that number, when it is the text that the command stands in,
   * or when there is no memory for another context.
   */
  lemma CommandRefused(g: Setting, i: Input, p: Piece)
    requires g.substitutions && i.state == Normal && !i.pushed && p.Ref? && Proper(p) && Stands(i, 0, Render(p))
    requires 0 < Number(p) <= |g.params| && |i.stack| <= g.memory ==>
               g.params[Number(p) - 1].address == i.stack[0].buffer.address
    ensures var r := Get(g, i); r.examine == NUL && r.state == EndState && !r.pushed
  {
    hide Scan, Stands, Render, Decimal;
    CommandScanned(g, i, p);
    var m := Inner(i, |Render(p)|, DoSubstitution, ')', Number(p));
    var n := m.(input := m.input.(state := EndState));
    ScanProceeds(g, m, n);
    EndReached(g, n);
  }

  /** The input ends as well when digits and spaces are followed by anything but the closing parenthesis. */
  lemma UnclosedCommand(g: Setting, i: Input, l: nat, d: string, r: nat, c: char)
    requires g.substitutions && i.state == Normal && !i.pushed && AllDigits(d) && (d == "" ==> r == 0)
    requires Stands(i, 0, "$(" + (Spaces(l) + (d + (Spaces(r) + [c]))))
    requires c != ' ' && c != '\n' && (r == 0 ==> !('0' <= c <= '9')) && (d != "" ==> c != ')')
    ensures var r := Get(g, i); r.examine == NUL && r.state == EndState && !r.pushed
  {
    hide Scan, Step, Stands, Decimal;
    var body := Spaces(l) + (d + (Spaces(r) + [c]));
    StandsBound(i, 0, "$(" + body);
    StandsApart(i, 0, "$(", body);
    CommandStarted(g, i);
    if d != "" {
      CommandBody(g, i, 2, '(', l, d, r, c);
      EndReached(g, Inner(i, 2 + l + |d| + r + 1, EndState, c, Decimal(d) % 0x1_0000_0000));
    } else {
      assert d + (Spaces(r) + [c]) == [c];
      StandsApart(i, 2, Spaces(l), [c]);
      LeadingSpaces(g, i, 2, '(', l, 0);
      CommandRead(g, i, 2 + l, SkipInitialSpaces, if l == 0 then '(' else ' ', 0, c);
      EndReached(g, Inner(i, 2 + l + 1, EndState, c, 0));
    }
  }

  // ----- positions

  /**
   * The input stands at s: in state Normal nothing behind s has been read, and in state Normal2 the next character has
   * been read already.
   */
  predicate StandsAt(i: Input, s: Contexts) {
    && !i.pushed
    && ((i.state == Normal && i.stack == s) || (i.state == Normal2 && Fetch(s) == Fetched(i.next, i.stack)))
  }

  /** The same position in state Normal. */
  function Rewound(i: Input, s: Contexts): Input {
    i.(state := Normal, stack := s)
  }

  lemma RewoundGet(g: Setting, i: Input, s: Contexts)
    requires StandsAt(i, s)
    ensures Get(g, i) == Get(g, Rewound(i, s))
  {
    hide Fetch;
    if i.state == Normal2 {
      assert Step(g, Machine(i, 0, 0)) == Step(g, Machine(Rewound(i, s), 0, 0));
    }
  }

  /** A call at an ordinary character delivers it. */
  lemma PlainDelivered(g: Setting, i: Input, s: Contexts)
    requires StandsAt(i, s) && Fetch(s).ch !in {'/', '$', NUL}
    ensures Get(g, i) == i.(state := Normal, stack := Fetch(s).stack, next := Fetch(s).ch, examine := Fetch(s).ch,
                            injected := false)
  {
    hide Fetch;
    RewoundGet(g, i, s);
    assert Step(g, Machine(Rewound(i, s), 0, 0)).Deliver?;
  }

  /** A call at the end delivers NUL, and so does every later one. */
  lemma EndDelivered(g: Setting, i: Input, s: Contexts)
    requires StandsAt(i, s) && Fetch(s).ch == NUL
    ensures var r := Get(g, i); r.examine == NUL && r.state == EndState && !r.pushed
  {
    hide Fetch;
    RewoundGet(g, i, s);
    var j := Rewound(i, s).(stack := Fetch(s).stack, next := NUL, state := EndState);
    ScanProceeds(g, Machine(Rewound(i, s), 0, 0), Machine(j, 0, 0));
    assert Step(g, Machine(j, 0, 0)) == Deliver(j.(examine := NUL));
  }

  /**
   * A '/' that no '*' follows, or a '$' that no '(' follows, is delivered, and the input stands right behind it; with
   * nothing behind it the input ends.
   */
  lemma MarkDelivered(g: Setting, i: Input, s: Contexts)
    requires g.comments && g.substitutions && StandsAt(i, s)
    requires (Fetch(s).ch == '/' && Fetch(Fetch(s).stack).ch != '*') || (Fetch(s).ch == '$' && Fetch(Fetch(s).stack).ch != '(')
    ensures var r, behind := Get(g, i), Fetch(s).stack;
            if Fetch(behind).ch == NUL then r.examine == NUL && r.state == EndState && !r.pushed
            else
              && r.examine == Fetch(s).ch && r.injected && StandsAt(r, behind)
              && r.next == Fetch(behind).ch && r.state == Normal2
  {
    hide Fetch, Scan;
    RewoundGet(g, i, s);
    var behind := Fetch(s).stack;
    var slash := Fetch(s).ch == '/';
    var j := Rewound(i, s);
    var k := j.(stack := behind, next := Fetch(s).ch, state := if slash then StartCommentCheck else StartSubstitution);
    var d := Fetch(behind).ch;
    var to := if d == NUL then EndState else if slash then NotComment else NotSubstitution;
    var l := k.(stack := Fetch(behind).stack, next := d, state := to);
    ScanProceeds(g, Machine(j, 0, 0), Machine(k, 0, 0));
    ScanProceeds(g, Machine(k, 0, 0), Machine(l, 0, 0));
    ScanDelivers(g, Machine(l, 0, 0));
  }

  lemma ScanDelivers(g: Setting, m: Machine)
    requires m.Consistent() && Step(g, m).Deliver?
    ensures Scan(g, m) == Step(g, m).input
  {
  }

  /**
   * In the middle of a text: two calls deliver a '/' or '$' that starts nothing and then the ordinary character behind
   * it, and what is left is the text behind that.
   */
  lemma MarkThenNext(g: Setting, i: Input, mark: char, c: char)
    requires g.comments && g.substitutions && i.state == Normal && !i.pushed && Stands(i, 0, [mark, c])
    requires (mark == '/' && c != '*') || (mark == '$' && c != '(')
    requires c !in {'/', '$', '\n', NUL}
    ensures var r := Get(g, i); AtRest(r) && r.examine == mark && !r.pushed && Get(g, r).examine == c
    ensures Get(g, Get(g, i)).stack == Skipped(i.stack, 2) && Get(g, Get(g, i)).state == Normal
  {
    hide Get;
    var t := i.stack[0].Rest();
    assert t[0..2][0] == mark && t[0..2][1] == c && Skipped(i.stack, 0) == i.stack;
    FetchSkipped(i.stack, 0);
    FetchSkipped(i.stack, 1);
    MarkDelivered(g, i, i.stack);
    PlainDelivered(g, Get(g, i), Skipped(i.stack, 1));
  }

  // ----- the next character of a plan

  lemma FirstIsFirst(p: Piece)
    requires Proper(p) && !p.Newline?
    ensures Render(p)[0] != '\n' && Render(p)[0] != NUL
  {
  }

  lemma TopRead(s: Contexts, p: string, q: string)
    requires s[0].Rest() == p + q && p != ""
    ensures |p| <= |s[0].Rest()| && Skipped(s, |p|)[0].Rest() == q
    ensures p[0] == '\n' ==> Fetch(s) == Fetch(Skipped(s, 1))
    ensures p[0] != '\n' ==> Fetch(s) == Fetched(p[0], Skipped(s, 1))
  {
    assert s[0].Rest()[0] == p[0];
    assert Skipped(s, |p|)[0].Rest() == s[0].Rest()[|p|..];
  }

  /** The plan with the first piece of the top context used up. */
  function Onward(plan: seq<seq<Piece>>): seq<seq<Piece>>
    requires plan != [] && plan[0] != []
  {
    [plan[0][1..]] + plan[1..]
  }

  lemma TopOfPlan(t: Table, rank: int -> nat, memory: nat, s: Contexts, plan: seq<seq<Piece>>)
    requires Spelled(t) && Planned(t, rank, memory, s, plan) && plan[0] != []
    ensures Proper(plan[0][0]) && s[0].Rest() == Render(plan[0][0]) + RenderAll(plan[0][1..])
    ensures |Render(plan[0][0])| <= |s[0].Rest()|
    ensures Planned(t, rank, memory, Skipped(s, |Render(plan[0][0])|), Onward(plan))
    ensures FirstOf(Onward(plan)) == First(plan[0][1..], FirstOf(plan[1..]))
  {
    hide First, Render;
    var n, s' := |Render(plan[0][0])|, s;
    TopRead(s, Render(plan[0][0]), RenderAll(plan[0][1..]));
    s' := Skipped(s, n);
    assert s'[1..] == s[1..] && Onward(plan)[1..] == plan[1..] && s'[0].buffer == s[0].buffer;
  }

  /** The next character to be read is the first one of the plan. */
  lemma {:induction false} FetchFirst(t: Table, rank: int -> nat, memory: nat, s: Contexts, plan: seq<seq<Piece>>)
    requires Spelled(t) && Planned(t, rank, memory, s, plan)
    ensures Fetch(s).ch == FirstOf(plan)
    decreases Unread(s), |s|
  {
    hide Render, Refers;
    if plan[0] == [] {
      if |s| == 1 {
        assert plan[1..] == [];
      } else {
        FetchFirst(t, rank, memory, s[1..], plan[1..]);
      }
    } else {
      TopOfPlan(t, rank, memory, s, plan);
      var p := plan[0][0];
      TopRead(s, Render(p), RenderAll(plan[0][1..]));
      if p.Newline? {
        MarksAre();
        OneRead(s);
        FetchFirst(t, rank, memory, Skipped(s, 1), Onward(plan));
      } else {
        FirstIsFirst(p);
      }
    }
  }

  lemma MarksAre()
    ensures Render(Newline) == "\n" && Render(Slash) == "/" && Render(Dollar) == "$"
  {
  }

  lemma OneRead(s: Contexts)
    requires s[0].Rest() != ""
    ensures Unread(Skipped(s, 1)) < Unread(s)
  {
    assert Skipped(s, 1)[1..] == s[1..];
  }

  lemma {:induction false} NothingLeftIn(t: Table, rank: int -> nat, ps: seq<Piece>, below: nat, after: char)
    requires Spelled(t) && Refers(t, rank, ps, below, after) && First(ps, after) == NUL
    ensures after == NUL && Expand(t, rank, ps, below, after) == ""
    decreases |ps|
  {
    if ps != [] {
      if !ps[0].Newline? {
        FirstIsFirst(ps[0]);
      }
      NothingLeftIn(t, rank, ps[1..], below, after);
    }
  }

  /** When no character is left to read then none is left to deliver. */
  lemma {:induction false} NothingLeft(t: Table, rank: int -> nat, memory: nat, s: seq<Context>, plan: seq<seq<Piece>>)
    requires Spelled(t) && Planned(t, rank, memory, s, plan) && FirstOf(plan) == NUL
    ensures Pending(t, rank, memory, s, plan) == ""
  {
    hide Expand, Refers, First;
    if s != [] {
      NothingLeftIn(t, rank, plan[0], rank(s[0].buffer.address), FirstOf(plan[1..]));
      NothingLeft(t, rank, memory, s[1..], plan[1..]);
    }
  }

  // ----- delivering the expansion

  lemma ContextClosed(g: Setting, i: Input)
    requires i.state == Normal && !i.pushed && |i.stack| > 1 && i.stack[0].Rest() == ""
    ensures Get(g, i) == Get(g, i.(stack := i.stack[1..]))
  {
    SameFetch(g, i, i.stack[1..]);
  }

  /** What matters of the stack is what is read from it. */
  lemma SameFetch(g: Setting, i: Input, s: Contexts)
    requires i.state == Normal && !i.pushed && Fetch(i.stack) == Fetch(s)
    ensures Get(g, i) == Get(g, i.(stack := s))
  {
    var j := i.(stack := s);
    assert ReadInto(i, c => Normal2) == ReadInto(j, c => Normal2);
    assert Step(g, Machine(i, 0, 0)) == Step(g, Machine(j, 0, 0));
  }

  /** Between two calls: at rest at a position with a plan for all that is left to read. */
  ghost predicate Ready(t: Table, rank: int -> nat, g: Setting, i: Input, s: Contexts, plan: seq<seq<Piece>>) {
    && g.comments && g.substitutions && g.params == t.params && Spelled(t)
    && StandsAt(i, s) && Planned(t, rank, g.memory, s, plan)
  }

  /** The outcome of one call: the first pending character, or the end when there is none. */
  ghost predicate Delivers(t: Table, rank: int -> nat, g: Setting, r: Input, pending: string, s: Contexts,
                           plan: seq<seq<Piece>>) {
    if pending == "" then r.examine == NUL && r.state == EndState && !r.pushed
    else && Ready(t, rank, g, r, s, plan) && r.examine == pending[0]
         && Pending(t, rank, g.memory, s, plan) == pending[1..]
  }

  /** What the first piece of a plan contributes. */
  lemma PendingOfPiece(t: Table, rank: int -> nat, memory: nat, s: Contexts, plan: seq<seq<Piece>>)
    requires Spelled(t) && Planned(t, rank, memory, s, plan) && plan[0] != []
    requires |Render(plan[0][0])| <= |s[0].Rest()|
    requires Planned(t, rank, memory, Skipped(s, |Render(plan[0][0])|), Onward(plan))
    requires FirstOf(Onward(plan)) == First(plan[0][1..], FirstOf(plan[1..]))
    ensures var rest, next := Pending(t, rank, memory, Skipped(s, |Render(plan[0][0])|), Onward(plan)), FirstOf(Onward(plan));
            Pending(t, rank, memory, s, plan) ==
            match plan[0][0]
            case Lit(c) => [c] + rest
            case Slash => if next == NUL then rest else "/" + rest
            case Dollar => if next == NUL then rest else "$" + rest
            case Ref(_, _, _) =>
              var n := Number(plan[0][0]) - 1;
              Expand(t, rank, t.pieces[n], rank(t.params[n].address), next) + rest
            case _ => rest
  {
    hide Render, First, FirstOf, Number, Expand, Contribution;
    PendingSplit(t, rank, memory, s, plan);
    var next := FirstOf(Onward(plan));
    ContributionIs(t, rank, plan[0], rank(s[0].buffer.address), FirstOf(plan[1..]));
    var rest := Pending(t, rank, memory, Skipped(s, |Render(plan[0][0])|), Onward(plan));
    assert "" + rest == rest;
  }

  lemma PendingSplit(t: Table, rank: int -> nat, memory: nat, s: Contexts, plan: seq<seq<Piece>>)
    requires Spelled(t) && Planned(t, rank, memory, s, plan) && plan[0] != []
    requires |Render(plan[0][0])| <= |s[0].Rest()|
    requires Planned(t, rank, memory, Skipped(s, |Render(plan[0][0])|), Onward(plan))
    ensures Pending(t, rank, memory, s, plan) ==
            Contribution(t, rank, plan[0], rank(s[0].buffer.address), FirstOf(plan[1..])) +
            Pending(t, rank, memory, Skipped(s, |Render(plan[0][0])|), Onward(plan))
  {
    hide Render, First, FirstOf, Number, Contribution;
    var s', below, after := Skipped(s, |Render(plan[0][0])|), rank(s[0].buffer.address), FirstOf(plan[1..]);
    assert s'[1..] == s[1..] && Onward(plan)[1..] == plan[1..] && s'[0].buffer == s[0].buffer;
    assert Expand(t, rank, plan[0], below, after) ==
           Contribution(t, rank, plan[0], below, after) + Expand(t, rank, plan[0][1..], below, after);
    var front, rest := Contribution(t, rank, plan[0], below, after), Expand(t, rank, plan[0][1..], below, after);
    var deeper := Pending(t, rank, memory, s[1..], plan[1..]);
    assert (front + rest) + deeper == front + (rest + deeper);
  }

  lemma ContributionIs(t: Table, rank: int -> nat, ps: seq<Piece>, below: nat, after: char)
    requires Spelled(t) && Refers(t, rank, ps, below, after) && ps != []
    ensures var next := First(ps[1..], after);
            Contribution(t, rank, ps, below, after) ==
            match ps[0]
            case Lit(c) => [c]
            case Slash => if next == NUL then "" else "/"
            case Dollar => if next == NUL then "" else "$"
            case Ref(_, _, _) =>
              var n := Number(ps[0]) - 1;
              Expand(t, rank, t.pieces[n], rank(t.params[n].address), next)
            case _ => ""
  {
  }

  lemma PushPlanned(t: Table, rank: int -> nat, memory: nat, s: Contexts, plan: seq<seq<Piece>>, n: nat)
    requires Spelled(t) && Planned(t, rank, memory, s, plan) && n < |t.params|
    requires rank(t.params[n].address) < rank(s[0].buffer.address)
    requires Refers(t, rank, t.pieces[n], rank(t.params[n].address), FirstOf(plan))
    ensures Room(s, memory) > 0 && |s| <= memory && t.params[n].address != s[0].buffer.address
    ensures Planned(t, rank, memory, [Context(t.params[n], 0)] + s, [t.pieces[n]] + plan)
    ensures Pending(t, rank, memory, [Context(t.params[n], 0)] + s, [t.pieces[n]] + plan) ==
            Expand(t, rank, t.pieces[n], rank(t.params[n].address), FirstOf(plan)) + Pending(t, rank, memory, s, plan)
  {
    hide Refers, Expand, FirstOf;
    var c := Context(t.params[n], 0);
    assert c.Rest() == t.params[n].text;
    assert ([c] + s)[1..] == s && ([t.pieces[n]] + plan)[1..] == plan;
  }

  lemma EmptyPlan(t: Table, rank: int -> nat, memory: nat, s: Contexts, plan: seq<seq<Piece>>)
    requires Spelled(t) && Planned(t, rank, memory, s, plan) && plan[0] == []
    ensures s[0].Rest() == "" && Planned(t, rank, memory, s[1..], plan[1..])
    ensures Pending(t, rank, memory, s, plan) == Pending(t, rank, memory, s[1..], plan[1..])
    ensures |s| == 1 ==> Pending(t, rank, memory, s, plan) == "" && Fetch(s).ch == NUL
  {
  }

  /** Reading at least one character of the current context makes what can be read smaller. */
  lemma SkippedUsesUp(s: Contexts, n: nat, longest: nat, memory: nat)
    requires 0 < n <= |s[0].Rest()|
    ensures Potential(Skipped(s, n), longest, memory) + Weight(longest, Room(s, memory)) <= Potential(s, longest, memory)
  {
    var s', w := Skipped(s, n), Weight(longest, Room(s, memory));
    assert s'[1..] == s[1..] && |s'[0].Rest()| == |s[0].Rest()| - n;
    ProductMonotone(|s'[0].Rest()| + 1, |s[0].Rest()|, w);
    assert (|s'[0].Rest()| + 1) * w == |s'[0].Rest()| * w + w;
  }

  /** Replacing a command makes what can be read smaller, by the weights that account for parameters. */
  lemma ReplacementUsesUp(g: Setting, i: Input, p: Piece)
    requires p.Ref? && Proper(p) && 0 < Number(p) <= |g.params| && |Render(p)| <= |i.stack[0].Rest()|
    requires Room(i.stack, g.memory) > 0
    ensures Potential(Replaced(g, i, p), Longest(g.params), g.memory) < Potential(i.stack, Longest(g.params), g.memory)
  {
    var s, n, longest := i.stack, |Render(p)|, Longest(g.params);
    var s', c := Skipped(s, n), Context(g.params[Number(p) - 1], 0);
    assert ([c] + s')[1..] == s' && c.Rest() == c.buffer.text;
    SkippedUsesUp(s, n, longest, g.memory);
    ProductMonotone(|c.buffer.text|, longest, Weight(longest, Room([c] + s', g.memory)));
  }

  /** One call delivers the first character of what is pending, or reports the end when nothing is pending. */
  lemma {:induction false} NextDelivered(t: Table, rank: int -> nat, g: Setting, i: Input, plan: seq<seq<Piece>>)
    returns (s': Contexts, plan': seq<seq<Piece>>)
    requires i.state == Normal && Ready(t, rank, g, i, i.stack, plan)
    ensures Delivers(t, rank, g, Get(g, i), Pending(t, rank, g.memory, i.stack, plan), s', plan')
    decreases Potential(i.stack, Longest(g.params), g.memory), |i.stack|
  {
    hide Expand, Refers, FirstOf;
    var s := i.stack;
    if plan[0] == [] {
      EmptyPlan(t, rank, g.memory, s, plan);
      if |s| > 1 {
        ContextClosed(g, i);
        s', plan' := NextDelivered(t, rank, g, i.(stack := s[1..]), plan[1..]);
      } else {
        EndDelivered(g, i, s);
        s', plan' := s, plan;
      }
    } else {
      s', plan' := NextOfPlan(t, rank, g, i, plan);
    }
  }

  lemma PlanDelivers(t: Table, rank: int -> nat, g: Setting, r: Input, pending: string, s: Contexts,
                     plan: seq<seq<Piece>>)
    requires Ready(t, rank, g, r, s, plan) && pending == [r.examine] + Pending(t, rank, g.memory, s, plan)
    ensures Delivers(t, rank, g, r, pending, s, plan)
  {
  }

  lemma NextOfPlan(t: Table, rank: int -> nat, g: Setting, i: Input, plan: seq<seq<Piece>>)
    returns (s': Contexts, plan': seq<seq<Piece>>)
    requires i.state == Normal && Ready(t, rank, g, i, i.stack, plan) && plan != [] && plan[0] != []
    ensures Delivers(t, rank, g, Get(g, i), Pending(t, rank, g.memory, i.stack, plan), s', plan')
    decreases Potential(i.stack, Longest(g.params), g.memory), |i.stack|, 0
  {
    hide Get, Expand, Pending, Potential, Planned, Refers, Delivers, First, FirstOf, Render, RenderAll, Longest, Weight,
         Fetch, Number, Skipped;
    var s, p := i.stack, plan[0][0];
    MarksAre();
    TopOfPlan(t, rank, g.memory, s, plan);
    PendingOfPiece(t, rank, g.memory, s, plan);
    TopRead(s, Render(p), RenderAll(plan[0][1..]));
    s', plan' := Skipped(s, |Render(p)|), Onward(plan);
    match p
    case Lit(c) =>
      LitRead(s, c);
      PlainDelivered(g, i, s);
      PlanDelivers(t, rank, g, Get(g, i), Pending(t, rank, g.memory, s, plan), s', plan');
    case Slash =>
      MarkOfPlan(t, rank, g, i, plan, s');
    case Dollar =>
      MarkOfPlan(t, rank, g, i, plan, s');
    case Ref(_, _, _) =>
      s', plan' := NextOfCommand(t, rank, g, i, plan, s');
    case _ =>
      SilentPiece(g, i, p, RenderAll(plan[0][1..]));
      SkippedUsesUp(s, |Render(p)|, Longest(g.params), g.memory);
      s', plan' := NextDelivered(t, rank, g, i.(stack := s'), plan');
  }

  lemma LitRead(s: Contexts, c: char)
    requires s[0].Rest() != "" && Render(Lit(c))[0] == s[0].Rest()[0] && Proper(Lit(c))
    ensures |Render(Lit(c))| == 1 && Fetch(s) == Fetched(c, Skipped(s, 1)) && c !in {'/', '$', NUL}
  {
  }

  /** A comment or the end of a line makes no difference. */
  lemma SilentPiece(g: Setting, i: Input, p: Piece, rest: string)
    requires g.comments && i.state == Normal && !i.pushed && (p.Comment? || p.Newline?) && Proper(p)
    requires i.stack[0].Rest() == Render(p) + rest
    ensures |Render(p)| <= |i.stack[0].Rest()| && Get(g, i) == Get(g, i.(stack := Skipped(i.stack, |Render(p)|)))
  {
    hide Get, Fetch;
    TopRead(i.stack, Render(p), rest);
    if p.Newline? {
      SameFetch(g, i, Skipped(i.stack, 1));
    } else {
      assert i.stack[0].Rest()[0..|Render(p)|] == Render(p);
      CommentSkipped(g, i, p.body);
    }
  }

  lemma MarkOfPlan(t: Table, rank: int -> nat, g: Setting, i: Input, plan: seq<seq<Piece>>, s': Contexts)
    requires i.state == Normal && Ready(t, rank, g, i, i.stack, plan) && plan != [] && plan[0] != []
    requires plan[0][0].Slash? || plan[0][0].Dollar?
    requires |Render(plan[0][0])| <= |i.stack[0].Rest()| && s' == Skipped(i.stack, |Render(plan[0][0])|)
    requires Planned(t, rank, g.memory, s', Onward(plan))
    requires FirstOf(Onward(plan)) == First(plan[0][1..], FirstOf(plan[1..]))
    requires Pending(t, rank, g.memory, i.stack, plan) ==
             if FirstOf(Onward(plan)) == NUL then Pending(t, rank, g.memory, s', Onward(plan))
             else Render(plan[0][0]) + Pending(t, rank, g.memory, s', Onward(plan))
    ensures Delivers(t, rank, g, Get(g, i), Pending(t, rank, g.memory, i.stack, plan), s', Onward(plan))
  {
    hide Get, Expand, Pending, First, FirstOf, RenderAll, Fetch;
    MarkRead(t, rank, g.memory, i.stack, plan);
    FetchFirst(t, rank, g.memory, s', Onward(plan));
    MarkDelivered(g, i, i.stack);
    if FirstOf(Onward(plan)) == NUL {
      NothingLeft(t, rank, g.memory, s', Onward(plan));
    }
  }

  lemma MarkRead(t: Table, rank: int -> nat, memory: nat, s: Contexts, plan: seq<seq<Piece>>)
    requires Spelled(t) && Planned(t, rank, memory, s, plan) && plan[0] != [] && (plan[0][0].Slash? || plan[0][0].Dollar?)
    ensures s[0].Rest() != "" && Fetch(s) == Fetched(Render(plan[0][0])[0], Skipped(s, 1))
    ensures First(plan[0][1..], FirstOf(plan[1..])) != if plan[0][0].Slash? then '*' else '('
  {
    hide First, FirstOf;
    TopRead(s, Render(plan[0][0]), RenderAll(plan[0][1..]));
  }

  lemma NextOfCommand(t: Table, rank: int -> nat, g: Setting, i: Input, plan: seq<seq<Piece>>, s: Contexts)
    returns (s': Contexts, plan': seq<seq<Piece>>)
    requires i.state == Normal && Ready(t, rank, g, i, i.stack, plan) && plan != [] && plan[0] != [] && plan[0][0].Ref?
    requires Proper(plan[0][0]) && i.stack[0].Rest() == Render(plan[0][0]) + RenderAll(plan[0][1..])
    requires |Render(plan[0][0])| <= |i.stack[0].Rest()| && s == Skipped(i.stack, |Render(plan[0][0])|)
    requires Planned(t, rank, g.memory, s, Onward(plan))
    requires FirstOf(Onward(plan)) == First(plan[0][1..], FirstOf(plan[1..]))
    ensures Delivers(t, rank, g, Get(g, i), Pending(t, rank, g.memory, i.stack, plan), s', plan')
    decreases Potential(i.stack, Longest(g.params), g.memory), |i.stack|, 0, 0
  {
    hide Get, Expand, Pending, Potential, Refers, Number, Render, RenderAll, Replaced, Skipped, Stands, Delivers,
         Longest, Decimal, First, FirstOf, Planned;
    var p, rest := plan[0][0], Onward(plan);
    CommandReplacement(t, rank, g, i, plan, s);
    var n := Number(p) - 1;
    PendingOfPiece(t, rank, g.memory, i.stack, plan);
    PushPlanned(t, rank, g.memory, s, rest, n);
    StandsFront(i, Render(p), RenderAll(plan[0][1..]));
    CommandReplaced(g, i, p);
    ReplacementUsesUp(g, i, p);
    s', plan' := NextDelivered(t, rank, g, i.(stack := Replaced(g, i, p)), [t.pieces[n]] + rest);
  }

  lemma StandsFront(i: Input, p: string, q: string)
    requires i.stack[0].Rest() == p + q
    ensures Stands(i, 0, p)
  {
    assert (p + q)[0..|p|] == p;
  }

  lemma CommandReplacement(t: Table, rank: int -> nat, g: Setting, i: Input, plan: seq<seq<Piece>>, s: Contexts)
    requires Ready(t, rank, g, i, i.stack, plan) && plan[0] != [] && plan[0][0].Ref? && Proper(plan[0][0])
    requires |Render(plan[0][0])| <= |i.stack[0].Rest()| && s == Skipped(i.stack, |Render(plan[0][0])|)
    ensures var n := Number(plan[0][0]) - 1;
            && 0 <= n < |t.params| == |t.pieces| && rank(t.params[n].address) < rank(s[0].buffer.address)
            && Replaced(g, i, plan[0][0]) == [Context(t.params[n], 0)] + s && |i.stack| == |s|
            && s[0].buffer == i.stack[0].buffer
            && Refers(t, rank, t.pieces[n], rank(t.params[n].address), First(plan[0][1..], FirstOf(plan[1..])))
  {
    hide Number, Render, RenderAll, First, FirstOf;
    assert Refers(t, rank, plan[0], rank(i.stack[0].buffer.address), FirstOf(plan[1..]));
  }

  /** The characters that n calls of GetCharacter in a row deliver. */
  function Deliveries(g: Setting, i: Input, n: nat): (s: string)
    requires AtRest(i)
    ensures |s| == n
    decreases n
  {
    if n == 0 then ""
    else
      GetAhead(g, i);
      var r := Get(g, i);
      [r.examine] + Deliveries(g, r, n - 1)
  }

  function Padded(s: string, n: nat): (r: string)
    ensures |r| == n
  {
    seq(n, k requires 0 <= k => if k < |s| then s[k] else NUL)
  }

  lemma {:induction false} NothingAfterEnd(g: Setting, i: Input, n: nat)
    requires i.state == EndState && !i.pushed
    ensures Deliveries(g, i, n) == Padded("", n)
    decreases n
  {
    if n > 0 {
      GetAhead(g, i);
      var r := i.(examine := NUL);
      assert Step(g, Machine(i, 0, 0)) == Deliver(r);
      NothingAfterEnd(g, r, n - 1);
      assert Padded("", n) == [NUL] + Padded("", n - 1);
    }
  }

  lemma {:induction false} PendingDelivered(t: Table, rank: int -> nat, g: Setting, i: Input, s: Contexts,
                                            plan: seq<seq<Piece>>, n: nat)
    requires Ready(t, rank, g, i, s, plan)
    ensures Deliveries(g, i, n) == Padded(Pending(t, rank, g.memory, s, plan), n)
    decreases n
  {
    hide Get, Ahead, Pending, Padded, Planned, Spelled, Fetch;
    if n > 0 {
      var pending := Pending(t, rank, g.memory, s, plan);
      RewoundGet(g, i, s);
      var s', plan' := NextDelivered(t, rank, g, Rewound(i, s), plan);
      GetAhead(g, i);
      PaddedHead(pending, n);
      var r := Get(g, i);
      if pending == "" {
        NothingAfterEnd(g, r, n - 1);
      } else {
        PendingDelivered(t, rank, g, r, s', plan', n - 1);
      }
    }
  }

  lemma PaddedHead(s: string, n: nat)
    requires n > 0
    ensures s == "" ==> Padded(s, n) == [NUL] + Padded("", n - 1)
    ensures s != "" ==> Padded(s, n) == [s[0]] + Padded(s[1..], n - 1)
  {
  }

  /** The state that SetInput leaves for a command line. */
  predicate Fresh(i: Input, main: Buffer) {
    i.stack == [Context(main, 0)] && i.state == Normal && !i.pushed
  }

  /**
   * Calling GetCharacter again and again delivers exactly the recursive expansion of the command line and then NUL for
   * ever, when no text leads back to itself and there is memory for as many contexts as parameters can be nested.
   */
  lemma ExpansionDelivered(t: Table, rank: int -> nat, g: Setting, i: Input, main: Buffer, ps: seq<Piece>, n: nat)
    requires g.comments && g.substitutions && g.params == t.params && Spelled(t) && Fresh(i, main)
    requires main.text == RenderAll(ps) && Refers(t, rank, ps, rank(main.address), NUL) && rank(main.address) <= g.memory
    ensures Deliveries(g, i, n) == Padded(Expand(t, rank, ps, rank(main.address), NUL), n)
  {
    assert i.stack[0].Rest() == main.text && [ps][1..] == [] && i.stack[1..] == [] && FirstOf([]) == NUL;
    assert Planned(t, rank, g.memory, [], []);
    assert Ready(t, rank, g, i, i.stack, [ps]);
    PendingDelivered(t, rank, g, i, i.stack, [ps], n);
    assert Pending(t, rank, g.memory, i.stack, [ps]) ==
           Expand(t, rank, ps, rank(main.address), NUL) + Pending(t, rank, g.memory, [], []);
  }
}
