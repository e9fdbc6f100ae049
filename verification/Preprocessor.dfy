/**
 The nesting stack of a file with preprocessor conditionals.  What a line does to the stack
 once conditionals have been dealt with is left open: it is a parameter, `effect`.
 */
module Preprocessor {
  datatype Directive = If | Else | Endif | Plain

  // A line with its directive, where #elif counts as #else, and its number.
  datatype Line<L> = Line(directive: Directive, text: L, linenum: nat)

  // What is remembered at an #if.
  datatype Info<B> = Info(stackBeforeIf: seq<B>, stackBeforeElse: seq<B>, seenElse: bool)

  datatype State<B> = State(stack: seq<B>, ppStack: seq<Info<B>>)

  function Init<B>(): State<B> { State([], []) }

  // ---------------------------------------------------------------------------------------
  // One line

  function Popped<T>(s: seq<T>): seq<T>
    requires s != []
  {
    s[..|s| - 1]
  }

  function Top<T>(s: seq<T>): T
    requires s != []
  {
    s[|s| - 1]
  }

  function AfterDirective<B>(s: State<B>, d: Directive): State<B> {
    match d
    case If => s.(ppStack := s.ppStack + [Info(s.stack, [], false)])
    case Else =>
      if s.ppStack == [] then s
      else
        var top := Top(s.ppStack);
        var seen := if top.seenElse then top else top.(seenElse := true, stackBeforeElse := s.stack);
        State(top.stackBeforeIf, Popped(s.ppStack) + [seen])
    case Endif =>
      if s.ppStack == [] then s
      else
        var top := Top(s.ppStack);
        State(if top.seenElse then top.stackBeforeElse else s.stack, Popped(s.ppStack))
    case Plain => s
  }

  function AfterLine<B, L>(effect: (Line<L>, seq<B>) -> seq<B>, s: State<B>, line: Line<L>): State<B> {
    var p := AfterDirective(s, line.directive);
    p.(stack := effect(line, p.stack))
  }

  function AfterLines<B, L>(effect: (Line<L>, seq<B>) -> seq<B>, s: State<B>, lines: seq<Line<L>>): State<B>
    decreases |lines|
  {
    if lines == [] then s else AfterLines(effect, AfterLine(effect, s, lines[0]), lines[1..])
  }

  // ---------------------------------------------------------------------------------------
  // Erasing

  // How many conditionals are open in the erased file, and, inside an erased stretch, how
  // many from the one that began it on.
  datatype Depth = Depth(kept: nat, erased: nat)

  function Next(k: Depth, d: Directive): Depth {
    match d
    case If => if k.erased == 0 then k.(kept := k.kept + 1) else k.(erased := k.erased + 1)
    case Else => if k.erased == 0 && k.kept > 0 then k.(erased := 1) else k
    case Endif =>
      if k.erased > 1 then k.(erased := k.erased - 1)
      else Depth(if k.kept > 0 then k.kept - 1 else 0, 0)
    case Plain => k
  }

  // A line is kept outside the erased stretches; these end before the matching #endif.
  predicate Keeps(k: Depth, d: Directive) {
    Next(k, d).erased == 0
  }

  // The file without each stretch from the first #else of a conditional to its #endif.
  function Erase<L>(lines: seq<Line<L>>, k: Depth): seq<Line<L>>
    decreases |lines|
  {
    if lines == [] then []
    else
      var d := lines[0].directive;
      (if Keeps(k, d) then [lines[0]] else []) + Erase(lines[1..], Next(k, d))
  }

  function DepthAfter<L>(lines: seq<Line<L>>, k: Depth): Depth
    decreases |lines|
  {
    if lines == [] then k else DepthAfter(lines[1..], Next(k, lines[0].directive))
  }

  // ---------------------------------------------------------------------------------------
  // Erased stretches do not matter

  // How the state of a file and that of the erased file hang together.
  ghost predicate Agrees<B>(s: State<B>, e: State<B>, k: Depth) {
    && |e.ppStack| == k.kept
    && (forall i :: 0 <= i < k.kept ==> !e.ppStack[i].seenElse)
    && if k.erased == 0 then s == e
       else
         && k.kept > 0
         && |s.ppStack| == k.kept + k.erased - 1
         && s.ppStack[..k.kept - 1] == Popped(e.ppStack)
         && s.ppStack[k.kept - 1] == Top(e.ppStack).(seenElse := true, stackBeforeElse := e.stack)
  }

  lemma OutsideAgrees<B, L>(effect: (Line<L>, seq<B>) -> seq<B>, s: State<B>, k: Depth, line: Line<L>)
    requires Agrees(s, s, k) && k.erased == 0
    ensures var e := if Keeps(k, line.directive) then AfterLine(effect, s, line) else s;
      Agrees(AfterLine(effect, s, line), e, Next(k, line.directive))
  {
  }

  lemma InsideAgrees<B, L>(effect: (Line<L>, seq<B>) -> seq<B>, s: State<B>, e: State<B>, k: Depth, line: Line<L>)
    requires Agrees(s, e, k) && k.erased > 0
    ensures var n := if Keeps(k, line.directive) then AfterLine(effect, e, line) else e;
      Agrees(AfterLine(effect, s, line), n, Next(k, line.directive))
  {
    if k.erased == 1 {
      assert s.ppStack == Popped(e.ppStack) + [Top(s.ppStack)];
    }
  }

  lemma AfterFirst<B, L>(effect: (Line<L>, seq<B>) -> seq<B>, s: State<B>, line: Line<L>, rest: seq<Line<L>>)
    ensures AfterLines(effect, s, [line] + rest) == AfterLines(effect, AfterLine(effect, s, line), rest)
  {
    assert ([line] + rest)[1..] == rest;
  }

  lemma {:induction false} LinesAgree<B, L>(effect: (Line<L>, seq<B>) -> seq<B>, s: State<B>, e: State<B>, k: Depth,
                                            lines: seq<Line<L>>)
    requires Agrees(s, e, k)
    ensures Agrees(AfterLines(effect, s, lines), AfterLines(effect, e, Erase(lines, k)), DepthAfter(lines, k))
    decreases |lines|
  {
    if lines != [] {
      var line := lines[0];
      if k.erased == 0 {
        OutsideAgrees(effect, s, k, line);
      } else {
        InsideAgrees(effect, s, e, k, line);
      }
      var n := if Keeps(k, line.directive) then AfterLine(effect, e, line) else e;
      LinesAgree(effect, AfterLine(effect, s, line), n, Next(k, line.directive), lines[1..]);
      var rest := Erase(lines[1..], Next(k, line.directive));
      if Keeps(k, line.directive) {
        assert Erase(lines, k) == [line] + rest;
        AfterFirst(effect, e, line, rest);
      } else {
        assert Erase(lines, k) == [] + rest == rest;
      }
    }
  }

  // Whatever lines do to the stack: the whole state after a file is that after the erased
  // file if and only if the file does not end inside an #else branch.
  lemma ErasedFileSameState<B, L>(effect: (Line<L>, seq<B>) -> seq<B>, lines: seq<Line<L>>)
    ensures AfterLines(effect, Init(), lines) == AfterLines(effect, Init(), Erase(lines, Depth(0, 0)))
      <==> DepthAfter(lines, Depth(0, 0)).erased == 0
  {
    LinesAgree(effect, Init(), Init(), Depth(0, 0), lines);
  }

  lemma OpenBranchErased<L>(start: Line<L>, plain: Line<L>, other: Line<L>)
    requires start.directive == If && plain.directive == Plain && other.directive == Else
    ensures Erase([start, plain, other], Depth(0, 0)) == [start, plain]
  {
    assert [start, plain, other][1..] == [plain, other] && [plain, other][1..] == [other];
    assert Erase([other], Depth(1, 0)) == [];
    assert Erase([plain, other], Depth(1, 0)) == [plain];
  }

  // A file that ends inside an #else branch is left with another stack.
  lemma OpenBranchDiffers()
    ensures var effect := (line: Line<()>, stack: seq<()>) => if line.directive == Plain then stack + [()] else stack;
      var lines := [Line(If, (), 1), Line(Plain, (), 2), Line(Else, (), 3)];
      && AfterLines(effect, Init(), lines).stack == []
      && AfterLines(effect, Init(), Erase(lines, Depth(0, 0))).stack == [()]
  {
    var effect := (line: Line<()>, stack: seq<()>) => if line.directive == Plain then stack + [()] else stack;
    var start, plain, other := Line(If, (), 1), Line(Plain, (), 2), Line(Else, (), 3);
    OpenBranchErased(start, plain, other);
    var begun := AfterLine(effect, Init(), start);
    var inside := AfterLine(effect, begun, plain);
    assert [start, plain] == [start] + ([plain] + []) && [start, plain, other] == [start] + ([plain] + ([other] + []));
    AfterFirst(effect, Init(), start, [plain] + []);
    AfterFirst(effect, begun, plain, []);
    AfterFirst(effect, Init(), start, [plain] + ([other] + []));
    AfterFirst(effect, begun, plain, [other] + []);
    AfterFirst(effect, inside, other, []);
  }

  // ---------------------------------------------------------------------------------------
  // Well-nested lines

  // From depth `depth` the lines open and close conditionals back to depth 0, and every
  // #else is inside one; with `elses` it may be at the outermost depth too.
  predicate Nested<L>(lines: seq<Line<L>>, depth: nat, elses: bool)
    decreases |lines|
  {
    if lines == [] then depth == 0
    else match lines[0].directive
      case If => Nested(lines[1..], depth + 1, elses)
      case Else => (depth > 0 || elses) && Nested(lines[1..], depth, elses)
      case Endif => depth > 0 && Nested(lines[1..], depth - 1, elses)
      case Plain => Nested(lines[1..], depth, elses)
  }

  // The conditionals that are open, erased or not.
  function Open(k: Depth): nat
    requires k.erased > 0 ==> k.kept > 0
  {
    if k.erased == 0 then k.kept else k.kept + k.erased - 1
  }

  lemma {:induction false} NestedComesBack<L>(lines: seq<Line<L>>, k: Depth)
    requires (k.erased > 0 ==> k.kept > 0) && Nested(lines, Open(k), false)
    ensures DepthAfter(lines, k) == Depth(0, 0)
    decreases |lines|
  {
    if lines != [] {
      NestedComesBack(lines[1..], Next(k, lines[0].directive));
    }
  }

  // Well-nested lines leave what was remembered before them as it was, with `depth` of their
  // own conditionals already open.
  lemma {:induction false} OuterKept<B, L>(effect: (Line<L>, seq<B>) -> seq<B>, s: State<B>, lines: seq<Line<L>>, depth: nat)
    requires Nested(lines, depth, false) && |s.ppStack| >= depth
    ensures AfterLines(effect, s, lines).ppStack == s.ppStack[..|s.ppStack| - depth]
    decreases |lines|
  {
    if lines != [] {
      var n := AfterLine(effect, s, lines[0]);
      var d := match lines[0].directive
        case If => depth + 1
        case Endif => depth - 1
        case _ => depth;
      OuterKept(effect, n, lines[1..], d);
      assert n.ppStack[..|n.ppStack| - d] == s.ppStack[..|s.ppStack| - depth];
    }
  }

  // The conditional at place `base` of what is remembered was begun with this stack, and
  // `depth` more have been begun inside it.
  ghost predicate BegunWith<B>(s: State<B>, outer: seq<Info<B>>, stack: seq<B>, depth: nat) {
    && |s.ppStack| == |outer| + 1 + depth
    && s.ppStack[..|outer|] == outer
    && s.ppStack[|outer|].stackBeforeIf == stack
  }

  lemma {:induction false} StillBegun<B, L>(effect: (Line<L>, seq<B>) -> seq<B>, s: State<B>, lines: seq<Line<L>>, depth: nat,
                                            outer: seq<Info<B>>, stack: seq<B>)
    requires Nested(lines, depth, true) && BegunWith(s, outer, stack, depth)
    ensures BegunWith(AfterLines(effect, s, lines), outer, stack, 0)
    decreases |lines|
  {
    if lines != [] {
      var d := match lines[0].directive
        case If => depth + 1
        case Endif => depth - 1
        case _ => depth;
      StillBegun(effect, AfterLine(effect, s, lines[0]), lines[1..], d, outer, stack);
    }
  }

  // Every #else or #elif starts from the stack as it was before the #if, whatever the lines of
  // the branches before it have done, and then has the effect of its own line.
  lemma ElseStartsFresh<B, L>(effect: (Line<L>, seq<B>) -> seq<B>, s: State<B>, start: Line<L>, body: seq<Line<L>>,
                              other: Line<L>)
    requires start.directive == If && Nested(body, 0, true) && other.directive == Else
    ensures var before := AfterLines(effect, s, [start] + body);
      && AfterDirective(before, Else).stack == s.stack
      && AfterLine(effect, before, other).stack == effect(other, s.stack)
  {
    AfterFirst(effect, s, start, body);
    StillBegun(effect, AfterLine(effect, s, start), body, 0, s.ppStack, s.stack);
  }

  // What the lines do to the stack by themselves.
  function Effects<B, L>(effect: (Line<L>, seq<B>) -> seq<B>, stack: seq<B>, lines: seq<Line<L>>): seq<B>
    decreases |lines|
  {
    if lines == [] then stack else Effects(effect, effect(lines[0], stack), lines[1..])
  }

  // Without any #if, directives are ignored, also an #else or #endif that has none.
  lemma {:induction false} StrayIgnored<B, L>(effect: (Line<L>, seq<B>) -> seq<B>, s: State<B>, lines: seq<Line<L>>)
    requires s.ppStack == [] && forall line :: line in lines ==> line.directive != If
    ensures AfterLines(effect, s, lines) == State(Effects(effect, s.stack, lines), [])
    decreases |lines|
  {
    if lines != [] {
      StrayIgnored(effect, AfterLine(effect, s, lines[0]), lines[1..]);
    }
  }

  // For a well-nested file the stack is that of the erased file, and nothing remembered is
  // left over.
  lemma WellNestedFile<B, L>(effect: (Line<L>, seq<B>) -> seq<B>, lines: seq<Line<L>>)
    requires Nested(lines, 0, false)
    ensures AfterLines(effect, Init(), lines) == AfterLines(effect, Init(), Erase(lines, Depth(0, 0)))
    ensures AfterLines(effect, Init(), lines).ppStack == []
  {
    NestedComesBack(lines, Depth(0, 0));
    ErasedFileSameState(effect, lines);
    OuterKept(effect, Init<B>(), lines, 0);
  }

  // ---------------------------------------------------------------------------------------
  // What is erased

  lemma {:induction false} EraseConcat<L>(a: seq<Line<L>>, b: seq<Line<L>>, k: Depth)
    ensures Erase(a + b, k) == Erase(a, k) + Erase(b, DepthAfter(a, k))
    ensures DepthAfter(a + b, k) == DepthAfter(b, DepthAfter(a, k))
    decreases |a|
  {
    if a == [] {
      assert a + b == b;
    } else {
      assert (a + b)[1..] == a[1..] + b;
      EraseConcat(a[1..], b, Next(k, a[0].directive));
    }
  }

  // Well-nested lines are erased in the same way at any depth.
  lemma {:induction false} EraseAtDepth<L>(lines: seq<Line<L>>, k: Depth, outer: nat)
    requires (k.erased > 0 ==> k.kept > 0) && Nested(lines, Open(k), false)
    ensures Erase(lines, Depth(outer + k.kept, k.erased)) == Erase(lines, k)
    ensures DepthAfter(lines, Depth(outer + k.kept, k.erased)) == Depth(outer, 0)
    decreases |lines|
  {
    if lines != [] {
      EraseAtDepth(lines[1..], Next(k, lines[0].directive), outer);
    }
  }

  // Nothing is kept of the lines after an #else.
  lemma {:induction false} BranchErased<L>(lines: seq<Line<L>>, k: Depth)
    requires k.erased > 0 && Nested(lines, k.erased - 1, true)
    ensures Erase(lines, k) == [] && DepthAfter(lines, k) == Depth(k.kept, 1)
    decreases |lines|
  {
    if lines != [] {
      BranchErased(lines[1..], Next(k, lines[0].directive));
    }
  }

  lemma EraseFirst<L>(line: Line<L>, rest: seq<Line<L>>, k: Depth)
    ensures Erase([line] + rest, k) == (if Keeps(k, line.directive) then [line] else []) + Erase(rest, Next(k, line.directive))
  {
    assert ([line] + rest)[1..] == rest;
  }

  lemma EraseElse<L>(other: Line<L>, branch: seq<Line<L>>, end: Line<L>, rest: seq<Line<L>>)
    requires other.directive == Else && end.directive == Endif && Nested(branch, 0, true)
    ensures Erase([other] + (branch + ([end] + rest)), Depth(1, 0)) == [end] + Erase(rest, Depth(0, 0))
  {
    EraseFirst(other, branch + ([end] + rest), Depth(1, 0));
    EraseConcat(branch, [end] + rest, Depth(1, 1));
    BranchErased(branch, Depth(1, 1));
    EraseFirst(end, rest, Depth(1, 1));
  }

  // Of a conditional with #else only the #if, its first branch and the #endif stay.
  lemma EraseConditional<L>(start: Line<L>, body: seq<Line<L>>, other: Line<L>, branch: seq<Line<L>>, end: Line<L>,
                            rest: seq<Line<L>>)
    requires start.directive == If && other.directive == Else && end.directive == Endif
    requires Nested(body, 0, false) && Nested(branch, 0, true)
    ensures Erase([start] + (body + ([other] + (branch + ([end] + rest)))), Depth(0, 0))
      == [start] + (Erase(body, Depth(0, 0)) + ([end] + Erase(rest, Depth(0, 0))))
  {
    var tail := [other] + (branch + ([end] + rest));
    EraseFirst(start, body + tail, Depth(0, 0));
    EraseConcat(body, tail, Depth(1, 0));
    EraseAtDepth(body, Depth(0, 0), 1);
    EraseElse(other, branch, end, rest);
  }

  // ---------------------------------------------------------------------------------------
  // The object

  class NestingState<B, L> {
    var stack: seq<B>
    var ppStack: seq<Info<B>>

    ghost function Value(): State<B>
      reads this
    {
      State(stack, ppStack)
    }

    constructor ()
      ensures Value() == Init()
    {
      stack, ppStack := [], [];
    }

    // Remembers the stack at an #if, goes back to it at an #else, and at an #endif goes on
    // with the stack of the first branch.
    method UpdatePreprocessor(d: Directive)
      modifies this
      ensures Value() == AfterDirective(old(Value()), d)
    {
      if d.If? {
        ppStack := ppStack + [Info(stack, [], false)];
      } else if d.Else? {
        if ppStack != [] {
          var last := |ppStack| - 1;
          if !ppStack[last].seenElse {
            ppStack := ppStack[last := ppStack[last].(seenElse := true, stackBeforeElse := stack)];
          }
          stack := ppStack[last].stackBeforeIf;
          assert ppStack == Popped(old(ppStack)) + [ppStack[last]];
        }
      } else if d.Endif? {
        if ppStack != [] {
          var last := |ppStack| - 1;
          if ppStack[last].seenElse {
            stack := ppStack[last].stackBeforeElse;
          }
          ppStack := ppStack[..last];
        }
      }
    }

    method Update(effect: (Line<L>, seq<B>) -> seq<B>, line: Line<L>)
      modifies this
      ensures Value() == AfterLine(effect, old(Value()), line)
    {
      UpdatePreprocessor(line.directive);
      stack := effect(line, stack);
    }

    // A whole file, line by line.
    method Process(effect: (Line<L>, seq<B>) -> seq<B>, lines: seq<Line<L>>)
      modifies this
      ensures Value() == AfterLines(effect, old(Value()), lines)
    {
      for i := 0 to |lines|
        invariant AfterLines(effect, Value(), lines[i..]) == AfterLines(effect, old(Value()), lines)
      {
        assert lines[i..][1..] == lines[i + 1..];
        Update(effect, lines[i]);
      }
    }
  }
}
