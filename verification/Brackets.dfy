/**
 Matching brackets over several lines: where the bracket at a position closes, and where it
 opens.
 */
module Brackets {
  // ---------------------------------------------------------------------------------------
  // Matching in a text

  function Weight(x: char, open: char, close: char): int {
    if x == open then 1 else if x == close then -1 else 0
  }

  // How many more brackets open than close from a up to b.
  function Balance(t: string, a: nat, b: nat, open: char, close: char): int
    requires a <= b <= |t|
    decreases b
  {
    if a == b then 0 else Balance(t, a, b - 1, open, close) + Weight(t[b - 1], open, close)
  }

  // The bracket at i is closed by the one at j: as many open as close from i to j, and up to
  // any place in between more open than close.
  ghost predicate Matches(t: string, i: int, j: int, open: char, close: char) {
    && 0 <= i < j < |t|
    && t[i] == open && t[j] == close
    && Balance(t, i, j + 1, open, close) == 0
    && forall k :: i < k <= j ==> Balance(t, i, k, open, close) >= 1
  }

  lemma {:induction false} BalanceSplits(t: string, a: nat, m: nat, b: nat, open: char, close: char)
    requires a <= m <= b <= |t|
    ensures Balance(t, a, b, open, close) == Balance(t, a, m, open, close) + Balance(t, m, b, open, close)
    decreases b
  {
    if m < b {
      BalanceSplits(t, a, m, b - 1, open, close);
    }
  }

  // More brackets close than open from k up to and with j.
  predicate Owes(t: string, k: nat, j: nat, open: char, close: char)
    requires k <= j < |t|
  {
    Balance(t, k, j + 1, open, close) <= -1
  }

  // Seen from the closing bracket: from any place in between on more close than open.
  lemma MatchesFromClose(t: string, i: nat, j: nat, open: char, close: char)
    requires i < j < |t| && open != close
    ensures Matches(t, i, j, open, close) <==>
            && t[i] == open && t[j] == close
            && Balance(t, i, j + 1, open, close) == 0
            && forall k :: i < k <= j ==> Owes(t, k, j, open, close)
  {
    forall k: nat | i < k <= j
      ensures Balance(t, i, j + 1, open, close) == 0 ==>
        (Balance(t, i, k, open, close) >= 1 <==> Owes(t, k, j, open, close))
    {
      BalanceSplits(t, i, k, j + 1, open, close);
    }
  }

  // A bracket has at most one partner, on either side.
  lemma PartnersUnique(t: string, i: int, j: int, k: int, open: char, close: char)
    requires open != close
    ensures Matches(t, i, j, open, close) && Matches(t, i, k, open, close) ==> j == k
    ensures Matches(t, i, k, open, close) && Matches(t, j, k, open, close) ==> i == j
  {
    if Matches(t, i, k, open, close) && Matches(t, j, k, open, close) {
      MatchesFromClose(t, i, k, open, close);
      MatchesFromClose(t, j, k, open, close);
      assert i < j ==> !Owes(t, j, k, open, close);
      assert j < i ==> !Owes(t, i, k, open, close);
    }
  }

  // ---------------------------------------------------------------------------------------
  // Lines

  function Text(lines: seq<string>): string {
    if lines == [] then "" else Text(lines[..|lines| - 1]) + lines[|lines| - 1]
  }

  // Where line n starts in the text.
  function Start(lines: seq<string>, n: nat): nat
    requires n <= |lines|
  {
    |Text(lines[..n])|
  }

  lemma {:induction false} LineInText(lines: seq<string>, n: nat)
    requires n < |lines|
    ensures Start(lines, n + 1) == Start(lines, n) + |lines[n]| <= |Text(lines)|
    ensures Text(lines)[Start(lines, n)..Start(lines, n + 1)] == lines[n]
    decreases |lines|
  {
    assert lines[..n + 1][..n] == lines[..n];
    if n == |lines| - 1 {
      assert lines[..n + 1] == lines;
    } else {
      var rest := lines[..|lines| - 1];
      LineInText(rest, n);
      assert rest[..n] == lines[..n] && rest[..n + 1] == lines[..n + 1];
    }
  }

  lemma {:induction false} BalanceInLine(lines: seq<string>, n: nat, a: nat, b: nat, open: char, close: char)
    requires n < |lines| && a <= b <= |lines[n]|
    ensures Start(lines, n) + b <= |Text(lines)|
    ensures Balance(Text(lines), Start(lines, n) + a, Start(lines, n) + b, open, close)
      == Balance(lines[n], a, b, open, close)
    decreases b
  {
    LineInText(lines, n);
    if a < b {
      BalanceInLine(lines, n, a, b - 1, open, close);
      assert Text(lines)[Start(lines, n)..Start(lines, n + 1)][b - 1] == lines[n][b - 1];
    }
  }

  // ---------------------------------------------------------------------------------------
  // Searching forward

  // More brackets open than close from i up to any place until m.
  ghost predicate StillOpen(t: string, i: nat, m: nat, open: char, close: char) {
    m <= |t| && forall k :: i < k <= m ==> Balance(t, i, k, open, close) >= 1
  }

  // A closing bracket at which the depth comes to 0.
  predicate Closes(t: string, i: nat, k: nat, depth: int, open: char, close: char)
    requires i <= k < |t|
  {
    t[k] == close && depth + Balance(t, i, k + 1, open, close) == 0
  }

  // What the search of a line from a position on finds: the place past the first closing
  // bracket at which the depth comes to 0, or the depth at the end of the line.
  ghost predicate EndFound(line: string, startpos: nat, depth: int, open: char, close: char, end: int, newDepth: int) {
    && startpos <= |line|
    && (end == -1 || startpos < end <= |line|)
    && (forall k :: startpos <= k < (if end == -1 then |line| else end - 1) ==> !Closes(line, startpos, k, depth, open, close))
    && if end == -1 then newDepth == depth + Balance(line, startpos, |line|, open, close)
       else newDepth == 0 && Closes(line, startpos, end - 1, depth, open, close)
  }

  method FindEndOfExpressionInLine(line: string, startpos: nat, depth: int, startchar: char, endchar: char)
      returns (end: int, newDepth: int)
    requires startpos <= |line| && startchar != endchar
    ensures EndFound(line, startpos, depth, startchar, endchar, end, newDepth)
  {
    newDepth := depth;
    for i := startpos to |line|
      invariant newDepth == depth + Balance(line, startpos, i, startchar, endchar)
      invariant forall k :: startpos <= k < i ==> !Closes(line, startpos, k, depth, startchar, endchar)
    {
      if line[i] == startchar {
        newDepth := newDepth + 1;
      } else if line[i] == endchar {
        newDepth := newDepth - 1;
        if newDepth == 0 {
          return i + 1, 0;
        }
      }
    }
    return -1, newDepth;
  }

  // While no bracket closes at depth 0, more are open than closed.
  lemma {:induction false} OpenUntil(t: string, i: nat, s: nat, m: nat, open: char, close: char)
    requires open != close && i <= s <= m <= |t| && StillOpen(t, i, s, open, close)
    requires i < s || (i < m ==> t[i] == open)
    requires forall k :: s <= k < m ==> !Closes(t, i, k, 0, open, close)
    ensures StillOpen(t, i, m, open, close)
    decreases m - s
  {
    if s < m {
      assert !Closes(t, i, s, 0, open, close);
      OpenUntil(t, i, s + 1, m, open, close);
    }
  }

  lemma CharInText(lines: seq<string>, n: nat, pos: nat)
    requires n < |lines| && pos < |lines[n]|
    ensures Start(lines, n) + pos < |Text(lines)| && Text(lines)[Start(lines, n) + pos] == lines[n][pos]
  {
    LineInText(lines, n);
    assert Text(lines)[Start(lines, n)..Start(lines, n + 1)][pos] == lines[n][pos];
  }

  lemma BalanceOn(lines: seq<string>, i: nat, n: nat, from: nat, k: nat, open: char, close: char)
    requires n < |lines| && from <= k <= |lines[n]| && i <= Start(lines, n) + from
    ensures Start(lines, n) + k <= |Text(lines)|
    ensures Balance(Text(lines), i, Start(lines, n) + k, open, close)
      == Balance(Text(lines), i, Start(lines, n) + from, open, close) + Balance(lines[n], from, k, open, close)
  {
    BalanceInLine(lines, n, from, k, open, close);
    BalanceSplits(Text(lines), i, Start(lines, n) + from, Start(lines, n) + k, open, close);
  }

  // The search of one line, seen in the text: it started at s, until where the bracket at i
  // is open, and met no closing bracket up to m.
  lemma LineSearched(lines: seq<string>, i: nat, n: nat, from: nat, to: nat, depth: int, open: char, close: char)
    requires open != close && n < |lines| && from <= to <= |lines[n]|
    requires i <= Start(lines, n) + from && Start(lines, n) + from <= |Text(lines)|
    requires StillOpen(Text(lines), i, Start(lines, n) + from, open, close)
    requires depth == Balance(Text(lines), i, Start(lines, n) + from, open, close)
    requires i < Start(lines, n) + from || (from < to ==> lines[n][from] == open)
    requires forall k :: from <= k < to ==> !Closes(lines[n], from, k, depth, open, close)
    ensures StillOpen(Text(lines), i, Start(lines, n) + to, open, close)
    ensures Balance(Text(lines), i, Start(lines, n) + to, open, close) == depth + Balance(lines[n], from, to, open, close)
  {
    var t, base := Text(lines), Start(lines, n);
    BalanceOn(lines, i, n, from, to, open, close);
    if from < to {
      CharInText(lines, n, from);
    }
    forall k: nat | base + from <= k < base + to ensures !Closes(t, i, k, 0, open, close) {
      CharInText(lines, n, k - base);
      BalanceOn(lines, i, n, from, k - base + 1, open, close);
      assert !Closes(lines[n], from, k - base, depth, open, close);
    }
    OpenUntil(t, i, base + from, base + to, open, close);
  }

  // A closing bracket found on the line is the partner.
  lemma ClosingFound(lines: seq<string>, i: nat, n: nat, from: nat, end: nat, depth: int, open: char, close: char)
    requires open != close && n < |lines| && from < end <= |lines[n]|
    requires i <= Start(lines, n) + from && Start(lines, n) + from <= |Text(lines)|
    requires StillOpen(Text(lines), i, Start(lines, n) + from, open, close)
    requires depth == Balance(Text(lines), i, Start(lines, n) + from, open, close)
    requires i < Start(lines, n) + from || lines[n][from] == open
    requires i < |Text(lines)| && Text(lines)[i] == open
    requires Closes(lines[n], from, end - 1, depth, open, close)
    requires forall k :: from <= k < end - 1 ==> !Closes(lines[n], from, k, depth, open, close)
    ensures Matches(Text(lines), i, Start(lines, n) + end - 1, open, close)
  {
    LineSearched(lines, i, n, from, end - 1, depth, open, close);
    CharInText(lines, n, end - 1);
  }

  lemma OpenToTheEnd(t: string, i: nat, open: char, close: char)
    requires StillOpen(t, i, |t|, open, close)
    ensures forall j :: !Matches(t, i, j, open, close)
  {
  }

  // The four kinds of brackets.
  ghost predicate IsPair(open: char, close: char) {
    (open, close) in {('(', ')'), ('[', ']'), ('{', '}'), ('<', '>')}
  }

  predicate IsOpening(c: char) { c in "({[<" }

  function Closing(open: char): (close: char)
    requires IsOpening(open)
    ensures IsPair(open, close) && forall c :: IsPair(open, c) ==> c == close
  {
    if open == '(' then ')' else if open == '[' then ']' else if open == '{' then '}' else '>'
  }

  ghost predicate ValidPosition(lines: seq<string>, n: int, pos: int) {
    0 <= n < |lines| && 0 <= pos < |lines[n]|
  }

  // A position on a line as a position in the text.
  ghost function At(lines: seq<string>, n: nat, pos: nat): (i: nat)
    requires ValidPosition(lines, n, pos)
    ensures i < |Text(lines)| && Text(lines)[i] == lines[n][pos]
  {
    CharInText(lines, n, pos);
    Start(lines, n) + pos
  }

  // The bracket at one position is closed by that at another.
  ghost predicate Closed(lines: seq<string>, n: int, pos: int, m: int, end: int) {
    && ValidPosition(lines, n, pos) && ValidPosition(lines, m, end)
    && var open := lines[n][pos];
       IsPair(open, lines[m][end]) && Matches(Text(lines), At(lines, n, pos), At(lines, m, end), open, lines[m][end])
  }

  // What is at the position is not closed anywhere.
  ghost predicate NeverClosed(lines: seq<string>, n: int, pos: int) {
    forall m, end :: !Closed(lines, n, pos, m, end)
  }

  // The bracket at i is still open at the end of line m, with that many open.
  ghost predicate OpenAfter(lines: seq<string>, i: nat, m: nat, numOpen: int, open: char, close: char) {
    && m < |lines| && i < Start(lines, m + 1) <= |Text(lines)|
    && StillOpen(Text(lines), i, Start(lines, m + 1), open, close)
    && numOpen == Balance(Text(lines), i, Start(lines, m + 1), open, close)
  }

  lemma FirstLine(lines: seq<string>, n: nat, pos: nat, end: int, newDepth: int)
    requires ValidPosition(lines, n, pos) && IsOpening(lines[n][pos])
    requires EndFound(lines[n], pos, 0, lines[n][pos], Closing(lines[n][pos]), end, newDepth)
    ensures if end == -1 then OpenAfter(lines, At(lines, n, pos), n, newDepth, lines[n][pos], Closing(lines[n][pos]))
            else Closed(lines, n, pos, n, end - 1)
  {
    var open, i := lines[n][pos], At(lines, n, pos);
    if end == -1 {
      LineInText(lines, n);
      LineSearched(lines, i, n, pos, |lines[n]|, 0, open, Closing(open));
    } else {
      ClosingFound(lines, i, n, pos, end, 0, open, Closing(open));
    }
  }

  lemma NextLine(lines: seq<string>, n: nat, pos: nat, m: nat, depth: int, end: int, newDepth: int)
    requires ValidPosition(lines, n, pos) && IsOpening(lines[n][pos]) && m + 1 < |lines|
    requires OpenAfter(lines, At(lines, n, pos), m, depth, lines[n][pos], Closing(lines[n][pos]))
    requires EndFound(lines[m + 1], 0, depth, lines[n][pos], Closing(lines[n][pos]), end, newDepth)
    ensures if end == -1 then OpenAfter(lines, At(lines, n, pos), m + 1, newDepth, lines[n][pos], Closing(lines[n][pos]))
            else Closed(lines, n, pos, m + 1, end - 1)
  {
    var open, i := lines[n][pos], At(lines, n, pos);
    if end == -1 {
      LineInText(lines, m + 1);
      LineSearched(lines, i, m + 1, 0, |lines[m + 1]|, depth, open, Closing(open));
    } else {
      ClosingFound(lines, i, m + 1, 0, end, depth, open, Closing(open));
    }
  }

  lemma LastLine(lines: seq<string>, n: nat, pos: nat, numOpen: int)
    requires ValidPosition(lines, n, pos) && IsOpening(lines[n][pos])
    requires OpenAfter(lines, At(lines, n, pos), |lines| - 1, numOpen, lines[n][pos], Closing(lines[n][pos]))
    ensures NeverClosed(lines, n, pos)
  {
    assert lines[..|lines|] == lines;
    OpenToTheEnd(Text(lines), At(lines, n, pos), lines[n][pos], Closing(lines[n][pos]));
  }

  // Searches the line of the opening bracket and then the lines after it.  The result is
  // past the closing bracket.
  method CloseExpression(lines: seq<string>, linenum: nat, pos: nat) returns (line: string, m: nat, end: int)
    requires ValidPosition(lines, linenum, pos)
    ensures if end == -1 then m == |lines| && NeverClosed(lines, linenum, pos)
            else end > 0 && Closed(lines, linenum, pos, m, end - 1) && line == lines[m]
    ensures end == -1 ==> line == if IsOpening(lines[linenum][pos]) then lines[|lines| - 1] else lines[linenum]
  {
    line := lines[linenum];
    var startchar := line[pos];
    if startchar !in "({[<" {
      return line, |lines|, -1;
    }
    var endchar := Closing(startchar);
    var numOpen;
    end, numOpen := FindEndOfExpressionInLine(line, pos, 0, startchar, endchar);
    FirstLine(lines, linenum, pos, end, numOpen);
    if end > -1 {
      return line, linenum, end;
    }
    m := linenum;
    while m < |lines| - 1
      invariant linenum <= m < |lines| && line == lines[m]
      invariant OpenAfter(lines, At(lines, linenum, pos), m, numOpen, startchar, endchar)
    {
      ghost var depth := numOpen;
      line := lines[m + 1];
      end, numOpen := FindEndOfExpressionInLine(line, 0, numOpen, startchar, endchar);
      NextLine(lines, linenum, pos, m, depth, end, numOpen);
      m := m + 1;
      if end > -1 {
        return line, m, end;
      }
    }
    LastLine(lines, linenum, pos, numOpen);
    return line, |lines|, -1;
  }

  // ---------------------------------------------------------------------------------------
  // Searching backward

  // More brackets close than open from any place from m on to j.
  ghost predicate StillOwed(t: string, m: nat, j: nat, open: char, close: char) {
    j < |t| && forall k :: m <= k <= j ==> Owes(t, k, j, open, close)
  }

  // An opening bracket at which the depth, counted from `last` backward, comes to 0.
  predicate Opens(t: string, k: nat, last: nat, depth: int, open: char, close: char)
    requires k <= last < |t|
  {
    t[k] == open && depth == Balance(t, k, last + 1, open, close)
  }

  // What the search of a line from a position backward finds: the first opening bracket at
  // which the depth comes to 0, or the depth at the start of the line.
  ghost predicate StartFound(line: string, endpos: int, depth: int, open: char, close: char, start: int, newDepth: int) {
    && -1 <= endpos < |line| && -1 <= start <= endpos
    && (forall k :: start < k <= endpos ==> !Opens(line, k, endpos, depth, open, close))
    && if start == -1 then newDepth == depth - Balance(line, 0, endpos + 1, open, close)
       else newDepth == 0 && Opens(line, start, endpos, depth, open, close)
  }

  lemma BalanceFirst(t: string, k: nat, b: nat, open: char, close: char)
    requires k < b <= |t|
    ensures Balance(t, k, b, open, close) == Weight(t[k], open, close) + Balance(t, k + 1, b, open, close)
  {
    BalanceSplits(t, k, k + 1, b, open, close);
  }

  method FindStartOfExpressionInLine(line: string, endpos: int, depth: int, startchar: char, endchar: char)
      returns (start: int, newDepth: int)
    requires -1 <= endpos < |line| && startchar != endchar
    ensures StartFound(line, endpos, depth, startchar, endchar, start, newDepth)
  {
    newDepth := depth;
    var i := endpos;
    while i > -1
      invariant -1 <= i <= endpos
      invariant newDepth == depth - Balance(line, i + 1, endpos + 1, startchar, endchar)
      invariant forall k :: i < k <= endpos ==> !Opens(line, k, endpos, depth, startchar, endchar)
    {
      BalanceFirst(line, i, endpos + 1, startchar, endchar);
      if line[i] == endchar {
        newDepth := newDepth + 1;
      } else if line[i] == startchar {
        newDepth := newDepth - 1;
        if newDepth == 0 {
          return i, 0;
        }
      }
      i := i - 1;
    }
    return -1, newDepth;
  }

  // While no bracket opens at depth 0, more are closed than opened.
  lemma {:induction false} OwedUntil(t: string, m: nat, s: nat, j: nat, open: char, close: char)
    requires open != close && m <= s <= j + 1 <= |t|
    requires s <= j ==> StillOwed(t, s, j, open, close)
    requires s <= j || t[j] == close
    requires forall k :: m <= k < s ==> !Opens(t, k, j, 0, open, close)
    ensures m <= j ==> StillOwed(t, m, j, open, close)
    decreases s - m
  {
    if m < s {
      BalanceFirst(t, s - 1, j + 1, open, close);
      assert !Opens(t, s - 1, j, 0, open, close);
      assert s <= j ==> Owes(t, s, j, open, close);
      OwedUntil(t, m, s - 1, j, open, close);
    }
  }

  lemma BalanceBack(lines: seq<string>, j: nat, n: nat, from: int, k: nat, depth: int, open: char, close: char)
    requires n < |lines| && k <= from + 1 <= |lines[n]|
    requires Start(lines, n) + from <= j < |Text(lines)|
    requires depth == -Balance(Text(lines), Start(lines, n) + from + 1, j + 1, open, close)
    ensures Balance(Text(lines), Start(lines, n) + k, j + 1, open, close)
      == Balance(lines[n], k, from + 1, open, close) - depth
  {
    BalanceInLine(lines, n, k, from + 1, open, close);
    BalanceSplits(Text(lines), Start(lines, n) + k, Start(lines, n) + from + 1, j + 1, open, close);
  }

  // The search of one line backward from `from`, seen in the text: all after `from` has been
  // searched from j on, and no opening bracket was met down to `to`.
  lemma LineSearchedBack(lines: seq<string>, j: nat, n: nat, from: int, to: nat, depth: int, open: char, close: char)
    requires open != close && n < |lines| && 0 <= to <= from + 1 <= |lines[n]|
    requires Start(lines, n) + from <= j < |Text(lines)|
    requires StillOwed(Text(lines), Start(lines, n) + from + 1, j, open, close)
    requires depth == -Balance(Text(lines), Start(lines, n) + from + 1, j + 1, open, close)
    requires Start(lines, n) + from < j || (0 <= from && lines[n][from] == close)
    requires forall k :: to <= k <= from ==> !Opens(lines[n], k, from, depth, open, close)
    ensures Start(lines, n) + to <= j ==> StillOwed(Text(lines), Start(lines, n) + to, j, open, close)
    ensures Balance(Text(lines), Start(lines, n) + to, j + 1, open, close)
      == Balance(lines[n], to, from + 1, open, close) - depth
  {
    var t, base := Text(lines), Start(lines, n);
    BalanceBack(lines, j, n, from, to, depth, open, close);
    forall k: nat | base + to <= k < base + from + 1 ensures !Opens(t, k, j, 0, open, close) {
      CharInText(lines, n, k - base);
      BalanceBack(lines, j, n, from, k - base, depth, open, close);
      assert !Opens(lines[n], k - base, from, depth, open, close);
    }
    if from >= 0 && base + from == j {
      CharInText(lines, n, from);
    }
    OwedUntil(t, base + to, base + from + 1, j, open, close);
  }

  // An opening bracket found on the line is the partner.
  lemma OpeningFound(lines: seq<string>, j: nat, n: nat, from: nat, start: nat, depth: int, open: char, close: char)
    requires open != close && n < |lines| && start <= from < |lines[n]|
    requires Start(lines, n) + from <= j < |Text(lines)| && Text(lines)[j] == close
    requires StillOwed(Text(lines), Start(lines, n) + from + 1, j, open, close)
    requires depth == -Balance(Text(lines), Start(lines, n) + from + 1, j + 1, open, close)
    requires Opens(lines[n], start, from, depth, open, close)
    requires forall k :: start < k <= from ==> !Opens(lines[n], k, from, depth, open, close)
    ensures Matches(Text(lines), Start(lines, n) + start, j, open, close)
  {
    var t, i := Text(lines), Start(lines, n) + start;
    CharInText(lines, n, start);
    CharInText(lines, n, from);
    BalanceInLine(lines, n, start, from + 1, open, close);
    BalanceSplits(t, i, Start(lines, n) + from + 1, j + 1, open, close);
    assert i != j;
    LineSearchedBack(lines, j, n, from, start + 1, depth, open, close);
    MatchesFromClose(t, i, j, open, close);
  }

  predicate IsClosing(c: char) { c in ")}]>" }

  function Opening(close: char): (open: char)
    requires IsClosing(close)
    ensures IsPair(open, close) && forall c :: IsPair(c, close) ==> c == open
  {
    if close == ')' then '(' else if close == ']' then '[' else if close == '}' then '{' else '<'
  }

  // What is at the position closes nothing.
  ghost predicate NeverOpened(lines: seq<string>, n: int, pos: int) {
    forall m, start :: !Closed(lines, m, start, n, pos)
  }

  // The bracket at j is still unopened at the start of line m, with that many owed.
  ghost predicate OwedBefore(lines: seq<string>, j: nat, m: nat, numOpen: int, open: char, close: char) {
    && m < |lines| && Start(lines, m) <= j < |Text(lines)|
    && StillOwed(Text(lines), Start(lines, m), j, open, close)
    && numOpen == -Balance(Text(lines), Start(lines, m), j + 1, open, close)
  }

  lemma FirstLineBack(lines: seq<string>, n: nat, pos: nat, start: int, newDepth: int)
    requires ValidPosition(lines, n, pos) && IsClosing(lines[n][pos])
    requires StartFound(lines[n], pos, 0, Opening(lines[n][pos]), lines[n][pos], start, newDepth)
    ensures if start == -1 then OwedBefore(lines, At(lines, n, pos), n, newDepth, Opening(lines[n][pos]), lines[n][pos])
            else Closed(lines, n, start, n, pos)
  {
    var close, j := lines[n][pos], At(lines, n, pos);
    if start == -1 {
      LineSearchedBack(lines, j, n, pos, 0, 0, Opening(close), close);
    } else {
      OpeningFound(lines, j, n, pos, start, 0, Opening(close), close);
    }
  }

  lemma NextLineBack(lines: seq<string>, n: nat, pos: nat, m: nat, depth: int, start: int, newDepth: int)
    requires ValidPosition(lines, n, pos) && IsClosing(lines[n][pos]) && 0 < m < |lines|
    requires OwedBefore(lines, At(lines, n, pos), m, depth, Opening(lines[n][pos]), lines[n][pos])
    requires StartFound(lines[m - 1], |lines[m - 1]| - 1, depth, Opening(lines[n][pos]), lines[n][pos], start, newDepth)
    ensures if start == -1 then OwedBefore(lines, At(lines, n, pos), m - 1, newDepth, Opening(lines[n][pos]), lines[n][pos])
            else Closed(lines, m - 1, start, n, pos)
  {
    var close, j := lines[n][pos], At(lines, n, pos);
    LineInText(lines, m - 1);
    if start == -1 {
      LineSearchedBack(lines, j, m - 1, |lines[m - 1]| - 1, 0, depth, Opening(close), close);
    } else {
      OpeningFound(lines, j, m - 1, |lines[m - 1]| - 1, start, depth, Opening(close), close);
    }
  }

  lemma LastLineBack(lines: seq<string>, n: nat, pos: nat, numOpen: int)
    requires ValidPosition(lines, n, pos) && IsClosing(lines[n][pos])
    requires OwedBefore(lines, At(lines, n, pos), 0, numOpen, Opening(lines[n][pos]), lines[n][pos])
    ensures NeverOpened(lines, n, pos)
  {
    forall m, start ensures !Closed(lines, m, start, n, pos) {
      if Closed(lines, m, start, n, pos) {
        assert Opening(lines[n][pos]) == lines[m][start];
        assert !Owes(Text(lines), At(lines, m, start), At(lines, n, pos), lines[m][start], lines[n][pos]);
      }
    }
  }

  // Searches the line of the closing bracket and then the lines before it.  The result is at
  // the opening bracket.
  method ReverseCloseExpression(lines: seq<string>, linenum: nat, pos: nat) returns (line: string, m: nat, start: int)
    requires ValidPosition(lines, linenum, pos)
    ensures if start == -1 then m == 0 && NeverOpened(lines, linenum, pos)
            else Closed(lines, m, start, linenum, pos) && line == lines[m]
    ensures start == -1 ==> line == if IsClosing(lines[linenum][pos]) then lines[0] else lines[linenum]
  {
    line := lines[linenum];
    var endchar := line[pos];
    if endchar !in ")}]>" {
      return line, 0, -1;
    }
    var startchar := Opening(endchar);
    var numOpen;
    start, numOpen := FindStartOfExpressionInLine(line, pos, 0, startchar, endchar);
    FirstLineBack(lines, linenum, pos, start, numOpen);
    if start > -1 {
      return line, linenum, start;
    }
    m := linenum;
    while m > 0
      invariant m <= linenum && line == lines[m]
      invariant OwedBefore(lines, At(lines, linenum, pos), m, numOpen, startchar, endchar)
    {
      ghost var depth := numOpen;
      line := lines[m - 1];
      start, numOpen := FindStartOfExpressionInLine(line, |line| - 1, numOpen, startchar, endchar);
      NextLineBack(lines, linenum, pos, m, depth, start, numOpen);
      m := m - 1;
      if start > -1 {
        return line, m, start;
      }
    }
    LastLineBack(lines, linenum, pos, numOpen);
    return line, 0, -1;
  }

  // ---------------------------------------------------------------------------------------
  // Inverse to each other

  lemma {:induction false} StartsGrow(lines: seq<string>, n: nat, m: nat)
    requires n <= m <= |lines|
    ensures Start(lines, n) <= Start(lines, m)
    decreases m
  {
    if n < m {
      StartsGrow(lines, n, m - 1);
      LineInText(lines, m - 1);
    }
  }

  // Different positions are at different places of the text.
  lemma AtInjective(lines: seq<string>, n: nat, pos: nat, m: nat, end: nat)
    requires ValidPosition(lines, n, pos) && ValidPosition(lines, m, end)
    requires At(lines, n, pos) == At(lines, m, end)
    ensures n == m && pos == end
  {
    LineInText(lines, n);
    LineInText(lines, m);
    if n < m {
      StartsGrow(lines, n + 1, m);
    } else if m < n {
      StartsGrow(lines, m + 1, n);
    }
  }

  // Each bracket is closed by at most one, and closes at most one.
  lemma ClosedUnique(lines: seq<string>, n: int, pos: int, m: int, end: int, k: int, place: int)
    ensures Closed(lines, n, pos, m, end) && Closed(lines, n, pos, k, place) ==> m == k && end == place
    ensures Closed(lines, n, pos, m, end) && Closed(lines, k, place, m, end) ==> n == k && pos == place
  {
    if Closed(lines, n, pos, m, end) && Closed(lines, n, pos, k, place) {
      PartnersUnique(Text(lines), At(lines, n, pos), At(lines, m, end), At(lines, k, place),
                     lines[n][pos], Closing(lines[n][pos]));
      AtInjective(lines, m, end, k, place);
    }
    if Closed(lines, n, pos, m, end) && Closed(lines, k, place, m, end) {
      PartnersUnique(Text(lines), At(lines, n, pos), At(lines, k, place), At(lines, m, end),
                     lines[n][pos], Closing(lines[n][pos]));
      AtInjective(lines, n, pos, k, place);
    }
  }

  // Going to the closing bracket and back leads to where one started.
  method ThereAndBack(lines: seq<string>, linenum: nat, pos: nat) returns (closed: bool, n: nat, start: int)
    requires ValidPosition(lines, linenum, pos)
    ensures closed <==> !NeverClosed(lines, linenum, pos)
    ensures closed ==> n == linenum && start == pos
  {
    var _, m, end := CloseExpression(lines, linenum, pos);
    if end == -1 {
      return false, linenum, pos;
    }
    var line;
    line, n, start := ReverseCloseExpression(lines, m, end - 1);
    ClosedUnique(lines, linenum, pos, m, end - 1, n, start);
    return true, n, start;
  }

  // And so does going to the opening bracket and back.
  method BackAndThere(lines: seq<string>, linenum: nat, pos: nat) returns (found: bool, n: nat, end: int)
    requires ValidPosition(lines, linenum, pos)
    ensures found <==> !NeverOpened(lines, linenum, pos)
    ensures found ==> n == linenum && end == pos + 1
  {
    var _, m, start := ReverseCloseExpression(lines, linenum, pos);
    if start == -1 {
      return false, linenum, pos + 1;
    }
    var line;
    line, n, end := CloseExpression(lines, m, start);
    ClosedUnique(lines, m, start, linenum, pos, n, end - 1);
    return true, n, end;
  }
}
