/** Comments: when a balanced one is skipped as a whole, however deep it is nested. */
module ScannerComments {
  import opened ScannerInput

  /**
   * The inside of a comment: ordinary characters, the ends of lines, a '*' that ends nothing, a '/' that starts nothing
   * with the character behind it, and nested comments. The character after a nested comment is part of the model, because
   * the scanner takes it as a character that follows a '/': it swallows it, whatever it is, and for a '*' it counts
   * another opening.
   */
  datatype Body =
    | Empty | Plain(c: char, rest: Body) | Break(rest: Body) | Starred(rest: Body) | Slashed(after: char, rest: Body)
    | Nested(inner: Body, after: char, rest: Body)

  predicate Ordinary(c: char) {
    c != '/' && c != '*' && c != '\n' && c != NUL
  }

  predicate Proper(b: Body) {
    match b
    case Empty => true
    case Plain(c, rest) => Ordinary(c) && Proper(rest)
    case Break(rest) => Proper(rest)
    case Starred(rest) => Proper(rest) && Mark(rest) != '/' && Mark(rest) != '\n'
    case Slashed(after, rest) => after != '*' && after != '\n' && after != NUL && Proper(rest)
    case Nested(inner, after, rest) => Proper(inner) && after != '\n' && after != NUL && Proper(rest)
  }

  /** The character behind a '*': the next one of the comment, or that of the closing mark. */
  function Mark(rest: Body): char { (Render(rest) + "*/")[0] }

  /** How many of the nested comments have a '*' right behind their closing mark. */
  function Reopened(b: Body): nat {
    match b
    case Empty => 0
    case Plain(_, rest) => Reopened(rest)
    case Break(rest) => Reopened(rest)
    case Starred(rest) => Reopened(rest)
    case Slashed(_, rest) => Reopened(rest)
    case Nested(inner, after, rest) => Reopened(inner) + (if after == '*' then 1 else 0) + Reopened(rest)
  }

  function Render(b: Body): string {
    match b
    case Empty => ""
    case Plain(c, rest) => [c] + Render(rest)
    case Break(rest) => "\n" + Render(rest)
    case Starred(rest) => "*" + Render(rest)
    case Slashed(after, rest) => ['/', after] + Render(rest)
    case Nested(inner, after, rest) => "/*" + Render(inner) + "*/" + [after] + Render(rest)
  }

  /** The stack with n more characters of the current context read. */
  function Skipped(s: Contexts, n: nat): Contexts
    requires n <= |s[0].Rest()|
  {
    s[0 := s[0].(pos := s[0].pos + n)]
  }

  lemma FetchSkipped(s: Contexts, k: nat)
    requires k < |s[0].Rest()| && s[0].Rest()[k] != '\n'
    ensures Fetch(Skipped(s, k)) == Fetched(s[0].Rest()[k], Skipped(s, k + 1))
  {
  }

  /** The automaton after k characters of the current context of i: its state, the last character, the open comments. */
  function At(i: Input, k: nat, state: InputState, next: char, nesting: nat): Machine
    requires k <= |i.stack[0].Rest()|
  {
    Machine(i.(stack := Skipped(i.stack, k), state := state, next := next), nesting, 0)
  }

  predicate Inside(state: InputState) {
    state == CommentFound || state == EmbeddedCommentCheck || state == FindEndOfComment
  }

  /** The state and the count that reading c inside a comment leads to. */
  function After(state: InputState, nesting: nat, c: char): (r: (InputState, nat))
    requires Inside(state) && nesting > 0 && c != NUL
  {
    if state == CommentFound then (CommentState(c), nesting)
    else if state == EmbeddedCommentCheck then (CommentFound, if c == '*' then nesting + 1 else nesting)
    else (if c == '/' && nesting == 1 then Normal else CommentFound2, if c == '/' then nesting - 1 else nesting)
  }

  lemma ScanRead(g: Setting, i: Input, k: nat, state: InputState, next: char, nesting: nat)
    requires k < |i.stack[0].Rest()| && i.stack[0].Rest()[k] != '\n' && Inside(state) && nesting > 0
    ensures var c := i.stack[0].Rest()[k];
            var (state', nesting') := After(state, nesting, c);
            && At(i, k, state, next, nesting).Consistent() && At(i, k + 1, state', c, nesting').Consistent()
            && Scan(g, At(i, k, state, next, nesting)) == Scan(g, At(i, k + 1, state', c, nesting'))
  {
    FetchSkipped(i.stack, k);
    var c := i.stack[0].Rest()[k];
    var (state', nesting') := After(state, nesting, c);
    assert Step(g, At(i, k, state, next, nesting)) == Proceed(At(i, k + 1, state', c, nesting'));
  }

  /** The characters p stand in the current context k characters ahead. */
  predicate Stands(i: Input, k: nat, p: string) {
    k + |p| <= |i.stack[0].Rest()| && i.stack[0].Rest()[k..k + |p|] == p
  }

  lemma StandsApart(i: Input, k: nat, p: string, q: string)
    requires Stands(i, k, p + q)
    ensures Stands(i, k, p) && Stands(i, k + |p|, q)
  {
    var t := i.stack[0].Rest()[k..k + |p + q|];
    assert t[..|p|] == p && t[|p|..] == q;
  }

  /** The machine once the comment that is open innermost has been closed. */
  function Closed(i: Input, k: nat, nesting: nat): Machine
    requires k <= |i.stack[0].Rest()| && nesting > 0
  {
    At(i, k, if nesting == 1 then Normal else CommentFound2, '/', nesting - 1)
  }

  lemma ClosingMark(g: Setting, i: Input, k: nat, next: char, nesting: nat)
    requires Stands(i, k, "*/") && nesting > 0
    ensures Closed(i, k + 2, nesting).Consistent() && At(i, k, CommentFound, next, nesting).Consistent()
    ensures Scan(g, At(i, k, CommentFound, next, nesting)) == Scan(g, Closed(i, k + 2, nesting))
  {
    var t := i.stack[0].Rest();
    assert t[k..k + 2][0] == '*' && t[k..k + 2][1] == '/';
    ScanRead(g, i, k, CommentFound, next, nesting);
    ScanRead(g, i, k + 1, FindEndOfComment, '*', nesting);
  }

  lemma OpeningMark(g: Setting, i: Input, k: nat, next: char, nesting: nat)
    requires Stands(i, k, "/*") && nesting > 0
    ensures At(i, k, CommentFound, next, nesting).Consistent()
    ensures At(i, k + 2, CommentFound, '*', nesting + 1).Consistent()
    ensures Scan(g, At(i, k, CommentFound, next, nesting)) == Scan(g, At(i, k + 2, CommentFound, '*', nesting + 1))
  {
    var t := i.stack[0].Rest();
    assert t[k..k + 2][0] == '/' && t[k..k + 2][1] == '*';
    ScanRead(g, i, k, CommentFound, next, nesting);
    ScanRead(g, i, k + 1, EmbeddedCommentCheck, '/', nesting);
  }

  /**
   * Behind a nested comment the scanner looks at the '/' that closed it once more. It swallows the next character and goes
   * on with the outer comment; only a '*' opens another comment there.
   */
  lemma Resumes(g: Setting, i: Input, k: nat, nesting: nat, after: char)
    requires Stands(i, k, [after]) && after != '\n' && after != NUL && nesting > 1
    ensures var nesting' := if after == '*' then nesting else nesting - 1;
            && Closed(i, k, nesting).Consistent() && At(i, k + 1, CommentFound, after, nesting').Consistent()
            && Scan(g, Closed(i, k, nesting)) == Scan(g, At(i, k + 1, CommentFound, after, nesting'))
  {
    assert i.stack[0].Rest()[k..k + 1][0] == after;
    assert Step(g, Closed(i, k, nesting)) == Proceed(At(i, k, EmbeddedCommentCheck, '/', nesting - 1));
    ScanRead(g, i, k, EmbeddedCommentCheck, '/', nesting - 1);
  }

  /** How many characters a piece of a comment has that is not a nested comment, and the last one that counts. */
  function Width(b: Body): nat { if b.Slashed? then 2 else 1 }

  function LastOf(b: Body, next: char): char {
    match b
    case Plain(c, _) => c
    case Starred(_) => '*'
    case Slashed(after, _) => after
    case _ => next
  }

  /** A piece of a comment that is not a nested comment is passed over. */
  lemma PieceSkipped(g: Setting, i: Input, k: nat, next: char, nesting: nat, b: Body)
    requires Proper(b) && !b.Empty? && !b.Nested? && nesting > 0 && Stands(i, k, Render(b) + "*/")
    ensures Proper(b.rest) && Stands(i, k + Width(b), Render(b.rest) + "*/")
    ensures |Render(b)| == Width(b) + |Render(b.rest)| && Reopened(b) == Reopened(b.rest)
    ensures k + Width(b) <= |i.stack[0].Rest()| && At(i, k, CommentFound, next, nesting).Consistent()
    ensures At(i, k + Width(b), CommentFound, LastOf(b, next), nesting).Consistent()
    ensures Scan(g, At(i, k, CommentFound, next, nesting)) ==
            Scan(g, At(i, k + Width(b), CommentFound, LastOf(b, next), nesting))
  {
    hide Scan, Step, At, Stands;
    match b
    case Plain(c, rest) =>
      OneStands(i, k, c, rest);
      ScanRead(g, i, k, CommentFound, next, nesting);
    case Break(rest) =>
      OneStands(i, k, '\n', rest);
      BreakSkipped(g, i, k, next, nesting);
    case Starred(rest) =>
      OneStands(i, k, '*', rest);
      ScanRead(g, i, k, CommentFound, next, nesting);
      StandsFront(i, k + 1, Render(rest) + "*/");
      StarEndsNothing(g, i, k + 1, nesting);
    case Slashed(after, rest) =>
      SlashedStands(i, k, after, rest);
      ScanRead(g, i, k, CommentFound, next, nesting);
      ScanRead(g, i, k + 1, EmbeddedCommentCheck, '/', nesting);
  }

  /**
   * Scanning the inside of a comment and its closing mark uses up exactly these characters. It closes one comment, and
   * opens one for every nested comment with a '*' right behind it.
   */
  lemma {:induction false} BodySkipped(g: Setting, i: Input, k: nat, next: char, nesting: nat, b: Body)
    requires Proper(b) && nesting > 0 && Stands(i, k, Render(b) + "*/")
    ensures var n := k + |Render(b)| + 2;
            && At(i, k, CommentFound, next, nesting).Consistent() && Closed(i, n, nesting + Reopened(b)).Consistent()
            && Scan(g, At(i, k, CommentFound, next, nesting)) == Scan(g, Closed(i, n, nesting + Reopened(b)))
    decreases b
  {
    hide Scan, Step, At, Closed, Stands, Ordinary;
    match b
    case Empty =>
      assert Render(b) + "*/" == "*/";
      ClosingMark(g, i, k, next, nesting);
    case Nested(inner, after, rest) =>
      NestedStands(i, k, inner, after, rest);
      hide Render;
      var k', open := k + |Render(inner)| + 4, nesting + 1 + Reopened(inner);
      OpeningMark(g, i, k, next, nesting);
      BodySkipped(g, i, k + 2, '*', nesting + 1, inner);
      Resumes(g, i, k', open, after);
      BodySkipped(g, i, k' + 1, after, if after == '*' then open else open - 1, rest);
    case _ =>
      hide Render;
      PieceSkipped(g, i, k, next, nesting, b);
      BodySkipped(g, i, k + Width(b), LastOf(b, next), nesting, b.rest);
  }

  lemma OneStands(i: Input, k: nat, c: char, rest: Body)
    requires Stands(i, k, ([c] + Render(rest)) + "*/")
    ensures k < |i.stack[0].Rest()| && i.stack[0].Rest()[k] == c && Stands(i, k + 1, Render(rest) + "*/")
  {
    assert ([c] + Render(rest)) + "*/" == [c] + (Render(rest) + "*/");
    StandsApart(i, k, [c], Render(rest) + "*/");
    assert i.stack[0].Rest()[k..k + 1][0] == c;
  }

  lemma StandsFront(i: Input, k: nat, p: string)
    requires Stands(i, k, p) && p != ""
    ensures k < |i.stack[0].Rest()| && i.stack[0].Rest()[k] == p[0]
  {
    assert i.stack[0].Rest()[k..k + |p|][0] == p[0];
  }

  lemma SlashedStands(i: Input, k: nat, after: char, rest: Body)
    requires Stands(i, k, (['/', after] + Render(rest)) + "*/")
    ensures k + 1 < |i.stack[0].Rest()| && i.stack[0].Rest()[k] == '/' && i.stack[0].Rest()[k + 1] == after
    ensures Stands(i, k + 2, Render(rest) + "*/")
  {
    assert (['/', after] + Render(rest)) + "*/" == ['/', after] + (Render(rest) + "*/");
    StandsApart(i, k, ['/', after], Render(rest) + "*/");
    assert i.stack[0].Rest()[k..k + 2][0] == '/' && i.stack[0].Rest()[k..k + 2][1] == after;
  }

  /** The end of a line makes no difference. */
  lemma BreakSkipped(g: Setting, i: Input, k: nat, next: char, nesting: nat)
    requires k < |i.stack[0].Rest()| && i.stack[0].Rest()[k] == '\n' && nesting > 0
    ensures At(i, k, CommentFound, next, nesting).Consistent() && At(i, k + 1, CommentFound, next, nesting).Consistent()
    ensures Scan(g, At(i, k, CommentFound, next, nesting)) == Scan(g, At(i, k + 1, CommentFound, next, nesting))
  {
    var m, n := At(i, k, CommentFound, next, nesting), At(i, k + 1, CommentFound, next, nesting);
    assert Skipped(i.stack, k + 1) == Advanced(Skipped(i.stack, k));
    assert Fetch(Skipped(i.stack, k)) == Fetch(Skipped(i.stack, k + 1));
    assert Step(g, m) == Step(g, n);
  }

  /** Behind a '*' any character but a '/' is looked at as if the '*' were not there. */
  lemma StarEndsNothing(g: Setting, i: Input, k: nat, nesting: nat)
    requires k < |i.stack[0].Rest()| && i.stack[0].Rest()[k] != '\n' && i.stack[0].Rest()[k] != '/' && nesting > 0
    ensures At(i, k, FindEndOfComment, '*', nesting).Consistent() && At(i, k, CommentFound, '*', nesting).Consistent()
    ensures Scan(g, At(i, k, FindEndOfComment, '*', nesting)) == Scan(g, At(i, k, CommentFound, '*', nesting))
  {
    hide Scan;
    var c := i.stack[0].Rest()[k];
    ScanRead(g, i, k, FindEndOfComment, '*', nesting);
    ScanRead(g, i, k, CommentFound, '*', nesting);
    ScanProceeds(g, At(i, k + 1, CommentFound2, c, nesting), At(i, k + 1, CommentState(c), c, nesting));
  }

  lemma NestedStands(i: Input, k: nat, inner: Body, after: char, rest: Body)
    requires Stands(i, k, Render(Nested(inner, after, rest)) + "*/")
    ensures Stands(i, k, "/*") && Stands(i, k + 2, Render(inner) + "*/")
    ensures Stands(i, k + |Render(inner)| + 4, [after])
    ensures Stands(i, k + |Render(inner)| + 5, Render(rest) + "*/")
    ensures |Render(Nested(inner, after, rest))| == |Render(inner)| + 5 + |Render(rest)|
  {
    var p, q := Render(inner) + "*/", [after] + (Render(rest) + "*/");
    Regrouped(Render(inner), [after], Render(rest));
    hide Stands;
    StandsApart(i, k, "/*", p + q);
    StandsApart(i, k + 2, p, q);
    StandsApart(i, k + 2 + |p|, [after], Render(rest) + "*/");
  }

  lemma Regrouped(a: string, b: string, c: string)
    ensures "/*" + a + "*/" + b + c + "*/" == "/*" + ((a + "*/") + (b + (c + "*/")))
  {
  }

  /** The machine behind a balanced comment: it is outside of comments exactly when nothing was opened twice. */
  lemma CommentRead(g: Setting, i: Input, b: Body)
    requires g.comments && i.state == Normal && !i.pushed
    requires Proper(b) && Stands(i, 0, "/*" + (Render(b) + "*/"))
    ensures var m := Closed(i, |Render(b)| + 4, 1 + Reopened(b));
            m.Consistent() && Get(g, i) == Scan(g, m) && (m.input.state == Normal <==> Reopened(b) == 0)
  {
    hide Scan, Step, Render;
    StandsApart(i, 0, "/*", Render(b) + "*/");
    CommentOpened(g, i);
    BodySkipped(g, i, 2, '*', 1, b);
  }

  /**
   * One call of GetCharacter at the start of a balanced comment, of any depth, gives what it would give with the comment
   * already behind it, when no '*' stands right behind a nested comment.
   */
  lemma CommentSkipped(g: Setting, i: Input, b: Body)
    requires g.comments && i.state == Normal && !i.pushed
    requires Proper(b) && Stands(i, 0, "/*" + (Render(b) + "*/")) && Reopened(b) == 0
    ensures Get(g, i) == Get(g, i.(stack := Skipped(i.stack, |Render(b)| + 4)))
  {
    hide Scan, Step, Render;
    var n := |Render(b)| + 4;
    CommentRead(g, i, b);
    NextIsOverwritten(g, Closed(i, n, 1).input, i.(stack := Skipped(i.stack, n)));
  }

  /** Inside a comment ordinary text is swallowed up to the end. */
  lemma {:induction false} RestSwallowed(g: Setting, i: Input, k: nat, next: char, nesting: nat)
    requires |i.stack| == 1 && nesting > 0 && k <= |i.stack[0].Rest()|
    requires forall j :: k <= j < |i.stack[0].Rest()| ==> Ordinary(i.stack[0].Rest()[j])
    ensures At(i, k, CommentFound, next, nesting).Consistent()
    ensures Scan(g, At(i, k, CommentFound, next, nesting)).examine == NUL
    decreases |i.stack[0].Rest()| - k
  {
    var t, m := i.stack[0].Rest(), At(i, k, CommentFound, next, nesting);
    if k < |t| {
      hide Scan, Step;
      ScanRead(g, i, k, CommentFound, next, nesting);
      RestSwallowed(g, i, k + 1, t[k], nesting);
    } else {
      assert Fetch(m.input.stack) == Fetched(NUL, m.input.stack);
      var e := m.(input := m.input.(next := NUL, state := EndState));
      assert Step(g, m) == Proceed(e);
      assert Step(g, e) == Deliver(e.input.(examine := NUL));
    }
  }

  /**
   * A balanced comment in front of plain text is skipped as a whole if and only if no '*' stands right behind a nested
   * comment; otherwise the text behind it is lost, and the call finds the end.
   */
  lemma CommentSkippedExactly(g: Setting, i: Input, b: Body, c: char, rest: string)
    requires g.comments && i.state == Normal && !i.pushed && |i.stack| == 1
    requires Proper(b) && i.stack[0].Rest() == "/*" + (Render(b) + "*/") + ([c] + rest)
    requires c != '$' && Ordinary(c) && forall j :: 0 <= j < |rest| ==> Ordinary(rest[j])
    ensures Get(g, i).examine == if Reopened(b) == 0 then c else NUL
  {
    hide Scan, Step, Render;
    var n, t := |Render(b)| + 4, i.stack[0].Rest();
    Behind("/*" + (Render(b) + "*/"), [c] + rest, t);
    CommentRead(g, i, b);
    if Reopened(b) == 0 {
      DeliversPlain(g, Closed(i, n, 1), c);
    } else {
      assert Stands(i, n, [c]);
      Resumes(g, i, n, 1 + Reopened(b), c);
      RestSwallowed(g, i, n + 1, c, Reopened(b));
    }
  }

  lemma Behind(p: string, q: string, t: string)
    requires t == p + q
    ensures t[0..|p|] == p && forall j :: 0 <= j < |q| ==> t[|p| + j] == q[j]
  {
  }

  lemma DeliversPlain(g: Setting, m: Machine, c: char)
    requires m.Consistent() && m.input.state == Normal && !m.input.pushed && m.input.stack[0].Rest() != ""
    requires m.input.stack[0].Rest()[0] == c && Ordinary(c) && c != '$'
    ensures Scan(g, m).examine == c
  {
    assert Fetch(m.input.stack).ch == c;
    assert Step(g, m).Deliver?;
  }

  lemma CommentOpened(g: Setting, i: Input)
    requires g.comments && i.state == Normal && !i.pushed && Stands(i, 0, "/*")
    ensures At(i, 2, CommentFound, '*', 1).Consistent()
    ensures Scan(g, Machine(i, 0, 0)) == Scan(g, At(i, 2, CommentFound, '*', 1))
  {
    var t := i.stack[0].Rest();
    assert t[0..2][0] == '/' && t[0..2][1] == '*' && Skipped(i.stack, 0) == i.stack;
    FetchSkipped(i.stack, 0);
    FetchSkipped(i.stack, 1);
    assert Step(g, Machine(i, 0, 0)) == Proceed(At(i, 1, StartCommentCheck, '/', 0));
    assert Step(g, At(i, 1, StartCommentCheck, '/', 0)) == Proceed(At(i, 2, CommentFound, '*', 1));
  }

  /** Before a read it does not matter which character was read last. */
  lemma NextIsOverwritten(g: Setting, i: Input, j: Input)
    requires i.state == Normal && i == j.(next := i.next)
    ensures Scan(g, Machine(i, 0, 0)) == Scan(g, Machine(j, 0, 0))
  {
    assert ReadInto(i, c => Normal2) == ReadInto(j, c => Normal2);
  }
}
