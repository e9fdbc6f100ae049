/** What the parser makes of the printed text of a list of strings. */
module StringListRoundTrip {
  import opened StringList

  // A quote right after a backslash.
  predicate HasEscape(s: string) {
    exists i :: 0 <= i < |s| && EscapedAt(s, i)
  }

  predicate EndsInBackslash(s: string) { s != "" && s[|s| - 1] == '\\' }

  ghost predicate AllPrintable(l: seq<string>) { forall s :: s in l ==> Printable(s) }

  // Every quote is escaped, where `prev` is the character before the text.
  ghost predicate Guarded(prev: char, t: string) {
    forall i :: 0 <= i < |t| && t[i] == '"' ==> (if i == 0 then prev else t[i - 1]) == '\\'
  }

  // ---------------------------------------------------------------------------------------
  // One string

  lemma GuardOneMore(prev: char, c: char, e: string)
    requires Guarded(c, e) && (c == '"' ==> prev == '\\')
    ensures Guarded(prev, [c] + e)
  {
    var t := [c] + e;
    assert t[0] == c && forall k :: 0 <= k < |e| ==> t[k + 1] == e[k];
    forall i | 0 <= i < |t| && t[i] == '"' ensures (if i == 0 then prev else t[i - 1]) == '\\' {
      if i > 0 {
        assert e[i - 1] == '"';
        assert (if i - 1 == 0 then c else e[i - 1 - 1]) == '\\';
      }
    }
  }

  lemma {:induction false} EscapeFromGuards(prev: char, s: string)
    ensures Guarded(prev, EscapeFrom(prev, s))
    decreases |s|
  {
    if s != "" {
      var e := EscapeFrom(s[0], s[1..]);
      EscapeFromGuards(s[0], s[1..]);
      if s[0] == '"' && prev != '\\' {
        GuardOneMore('\\', '"', e);
        GuardOneMore(prev, '\\', ['"'] + e);
        assert EscapeFrom(prev, s) == ['\\'] + (['"'] + e);
      } else {
        GuardOneMore(prev, s[0], e);
        assert EscapeFrom(prev, s) == [s[0]] + e;
      }
    }
  }

  lemma {:induction false} EscapeFromEnds(prev: char, s: string)
    ensures |EscapeFrom(prev, s)| >= |s|
    ensures s != "" ==> EscapeFrom(prev, s)[|EscapeFrom(prev, s)| - 1] == s[|s| - 1]
    decreases |s|
  {
    if s != "" {
      EscapeFromEnds(s[0], s[1..]);
    }
  }

  // The printed form has only escaped quotes, and ends like the string.
  lemma EscapeGuards(s: string)
    requires Printable(s)
    ensures Guarded('"', Escape(s))
    ensures (s == "" <==> Escape(s) == "") && (s != "" ==> Escape(s)[|Escape(s)| - 1] == s[|s| - 1])
  {
    if s != "" {
      EscapeFromGuards(s[0], s[1..]);
      EscapeFromEnds(s[0], s[1..]);
      GuardOneMore('"', s[0], EscapeFrom(s[0], s[1..]));
    }
  }

  lemma UnescapeHead(c: char, s: string)
    ensures Unescape([c] + s) == if c == '\\' && s != "" && s[0] == '"' then ['"'] + Unescape(s[1..]) else [c] + Unescape(s)
  {
    assert ([c] + s)[1..] == s;
    assert s != "" ==> ([c] + s)[2..] == s[1..];
  }

  lemma UnescapeQuote(e: string)
    ensures Unescape(['\\', '"'] + e) == ['"'] + Unescape(e)
  {
    assert (['\\', '"'] + e)[2..] == e;
  }

  // Unescaping takes back what the printer added, and the string's own escapes too.
  lemma {:induction false} UnescapeEscapeFrom(prev: char, s: string)
    ensures Unescape(EscapeFrom(prev, s)) == Unescape(s)
    decreases |s|
  {
    if s != "" {
      var c, rest := s[0], s[1..];
      var e := EscapeFrom(c, rest);
      UnescapeEscapeFrom(c, rest);
      assert s == [c] + rest;
      UnescapeHead(c, rest);
      UnescapeHead(c, e);
      if c == '"' && prev != '\\' {
        UnescapeQuote(e);
      } else if c == '\\' && rest != "" && rest[0] == '"' {
        UnescapeEscapeFrom('"', rest[1..]);
        assert e[1..] == EscapeFrom('"', rest[1..]);
      }
    }
  }

  lemma UnescapeEscape(s: string)
    requires Printable(s)
    ensures Unescape(Escape(s)) == Unescape(s)
  {
    UnescapeEscapeFrom('\\', s);
  }

  // Unescaping changes a string exactly when it has an escaped quote, and makes it shorter.
  lemma {:induction false} UnescapeShortens(s: string)
    ensures |Unescape(s)| <= |s|
    ensures if HasEscape(s) then |Unescape(s)| < |s| else Unescape(s) == s
  {
    if s != "" {
      UnescapeShortens(s[1..]);
      if StartsEscaped(s) {
        UnescapeShortens(s[2..]);
        assert EscapedAt(s, 1);
      } else {
        assert s == [s[0]] + s[1..];
        if i :| 0 <= i < |s| && EscapedAt(s, i) {
          assert EscapedAt(s[1..], i - 1);
        }
        if i :| 0 <= i < |s[1..]| && EscapedAt(s[1..], i) {
          assert EscapedAt(s, i + 1);
        }
      }
    }
  }

  lemma {:induction false} UnescapeKeepsLast(s: string)
    requires s != ""
    ensures Unescape(s) != "" && Unescape(s)[|Unescape(s)| - 1] == s[|s| - 1]
  {
    if StartsEscaped(s) {
      if |s| > 2 {
        UnescapeKeepsLast(s[2..]);
      }
    } else if |s| > 1 {
      UnescapeKeepsLast(s[1..]);
    }
  }

  // ---------------------------------------------------------------------------------------
  // One round

  // The text at a round: a brace or comma, a string, and what follows it.
  function TextAt(sep: char, s: string, after: string): string {
    [sep] + Quoted(s) + after
  }

  lemma TextParts(sep: char, s: string, after: string)
    requires sep != '"' && sep != '\\' && sep != '}'
    ensures var t := TextAt(sep, s, after); var n := |Escape(s)| + 2;
      && t != "}" && n < |t| && t[n + 1..] == after
      && t[2..n] == Escape(s) && t[1] == '"' && t[n] == '"'
      && Find(t, 0) == 1 && !EscapedAt(t, 1)
  {
    var t := TextAt(sep, s, after);
    assert t[0] == sep && t[1] == '"';
  }

  // The printed quotes inside a string are not taken for the closing one.
  lemma InnerQuotesEscaped(sep: char, s: string, after: string, i: nat)
    requires sep != '"' && sep != '\\' && sep != '}' && Printable(s)
    requires 2 <= i < |Escape(s)| + 2
    ensures i < |TextAt(sep, s, after)|
    ensures TextAt(sep, s, after)[i] == '"' ==> EscapedAt(TextAt(sep, s, after), i)
  {
    var t, e := TextAt(sep, s, after), Escape(s);
    TextParts(sep, s, after);
    EscapeGuards(s);
    assert t[i] == e[i - 2];
    assert i > 2 ==> t[i - 1] == e[i - 3];
  }

  lemma ClosingIs(t: string, from: nat, n: nat)
    requires 0 < from <= n < |t| && t[n] == '"' && !EscapedAt(t, n)
    requires forall i :: from <= i < n && t[i] == '"' ==> EscapedAt(t, i)
    ensures FindClosing(t, from) == n
  {
  }

  // The closing quote of a string that does not end in a backslash is found.
  lemma ClosingFound(sep: char, s: string, after: string)
    requires sep != '"' && sep != '\\' && sep != '}' && Printable(s) && !EndsInBackslash(s)
    ensures |TextAt(sep, s, after)| > 2 && FindClosing(TextAt(sep, s, after), 2) == |Escape(s)| + 2
  {
    var t, n := TextAt(sep, s, after), |Escape(s)| + 2;
    TextParts(sep, s, after);
    forall i: nat | 2 <= i < n ensures t[i] == '"' ==> EscapedAt(t, i) { InnerQuotesEscaped(sep, s, after, i); }
    EscapeGuards(s);
    assert s != "" ==> t[n - 1] == t[2..n][n - 3];
    ClosingIs(t, 2, n);
  }

  // A string that does not end in a backslash is read as itself without its escapes, and
  // nothing beyond it is touched.
  lemma RoundReadsString(sep: char, s: string, after: string)
    requires sep != '"' && sep != '\\' && sep != '}' && Printable(s) && !EndsInBackslash(s)
    ensures DecodeRound(TextAt(sep, s, after)) == Value(Unescape(s), after)
  {
    TextParts(sep, s, after);
    ClosingFound(sep, s, after);
    UnescapeEscape(s);
  }

  // A final backslash hides the closing quote: the last string is lost,
  lemma LastStringLost(sep: char, s: string)
    requires sep != '"' && sep != '\\' && sep != '}' && Printable(s) && EndsInBackslash(s)
    ensures DecodeRound(TextAt(sep, s, "}")) == NoValue
  {
    var t, n := TextAt(sep, s, "}"), |Escape(s)| + 2;
    TextParts(sep, s, "}");
    EscapeGuards(s);
    forall i: nat | 2 <= i < |t| && t[i] == '"' ensures EscapedAt(t, i) {
      if i < n {
        InnerQuotesEscaped(sep, s, "}", i);
      } else {
        assert t[n - 1] == t[2..n][n - 3];
        assert t[n + 1..] == "}";
      }
    }
  }

  lemma {:induction false} EscapeConcat(prev: char, a: string, b: string)
    ensures EscapeFrom(prev, a + b) == EscapeFrom(prev, a) + EscapeFrom(if a == "" then prev else a[|a| - 1], b)
    decreases |a|
  {
    if a == "" {
      assert a + b == b;
    } else {
      assert (a + b)[0] == a[0] && (a + b)[1..] == a[1..] + b;
      EscapeConcat(a[0], a[1..], b);
      var first := if a[0] == '"' && prev != '\\' then ['\\', '"'] else [a[0]];
      Associates(first, EscapeFrom(a[0], a[1..]), EscapeFrom(a[|a| - 1], b));
    }
  }

  // What a string with a final backslash is read as when another follows: it takes in its
  // closing quote and the comma.
  function Swallowing(s: string): string { s + ['"', ','] }

  lemma SwallowingEscape(s: string)
    requires EndsInBackslash(s)
    ensures Escape(Swallowing(s)) == Escape(s) + ['"', ',']
  {
    var tail := ['"', ','];
    assert EscapeFrom('\\', tail) == tail by {
      assert tail[1..] == [','] && [','][1..] == "";
    }
    assert (s + tail)[0] == s[0] && (s + tail)[1..] == s[1..] + tail;
    EscapeConcat(s[0], s[1..], tail);
  }

  lemma MoveTwo(e: string, c: char, d: char, after: string)
    requires |after| > 1 && after[0] == c && after[1] == d
    ensures ([d] + e + [d]) + after == ([d] + (e + [d, c]) + [d]) + after[2..]
  {
    assert after == [c, d] + after[2..];
  }

  lemma SwallowingText(sep: char, s: string, after: string)
    requires EndsInBackslash(s) && |after| > 1 && after[0] == ',' && after[1] == '"'
    ensures TextAt(sep, s, after) == TextAt(sep, Swallowing(s), after[2..])
  {
    SwallowingEscape(s);
    MoveTwo(Escape(s), ',', '"', after);
    assert TextAt(sep, s, after) == [sep] + (Quoted(s) + after);
    assert TextAt(sep, Swallowing(s), after[2..]) == [sep] + (Quoted(Swallowing(s)) + after[2..]);
  }

  // and any other string swallows the comma after it, and the opening quote of the next.
  lemma CommaSwallowed(sep: char, s: string, after: string)
    requires sep != '"' && sep != '\\' && sep != '}' && Printable(s) && EndsInBackslash(s)
    requires |after| > 1 && after[0] == ',' && after[1] == '"'
    ensures DecodeRound(TextAt(sep, s, after)) == Value(Unescape(Swallowing(s)), after[2..])
    ensures Unescape(Swallowing(s)) != s
  {
    SwallowingText(sep, s, after);
    RoundReadsString(sep, Swallowing(s), after[2..]);
    UnescapeKeepsLast(Swallowing(s));
  }

  // ---------------------------------------------------------------------------------------
  // One round out of phase

  // The text from inside the opening quote of a string on.
  function Inside(s: string, after: string): string {
    Escape(s) + ['"'] + after
  }

  // Read from inside its opening quote, such a string keeps the parser from going on.
  predicate Blocks(s: string) { '"' in s || EndsInBackslash(s) }

  lemma {:induction false} EscapeKeepsQuote(prev: char, s: string)
    ensures '"' in s ==> '"' in EscapeFrom(prev, s)
    decreases |s|
  {
    if s != "" && s[0] != '"' {
      EscapeKeepsQuote(s[0], s[1..]);
    }
  }

  lemma BlockingIsStuck(s: string, after: string)
    requires Printable(s) && Blocks(s)
    ensures DecodeRound(Inside(s, after)) == Stuck
  {
    var t, e := Inside(s, after), Escape(s);
    EscapeGuards(s);
    EscapeKeepsQuote(s[0], s[1..]);
    assert t[|e|] == '"' && forall k :: 0 <= k < |e| ==> t[k] == e[k];
    var i := Find(t, 0);
    if i < |e| {
      assert e[i] == '"' && i > 0 && e[i - 1] == '\\';
    } else {
      assert '"' !in e && '"' !in s;
      assert e[|e| - 1] == '\\';
    }
    assert EscapedAt(t, i) && t != "}";
  }

  lemma PlainIsItself(s: string, after: string)
    requires Printable(s) && !Blocks(s)
    ensures Inside(s, after) == s + ['"'] + after
    ensures var t := Inside(s, after); Find(t, 0) == |s| < |t| && !EscapedAt(t, |s|) && t[|s| + 1..] == after && t != "}"
  {
    if s != "" {
      EscapeSkips(s[0], s[1..], |s| - 1);
      assert s[1..][..|s| - 1] == s[1..] && s == [s[0]] + s[1..];
    }
    var t := s + ['"'] + after;
    assert t[|s|] == '"' && forall i :: 0 <= i < |s| ==> t[i] == s[i];
  }

  // Of any other, its closing quote is taken for an opening one: the comma is read,
  lemma CommaRead(s: string, after: string)
    requires Printable(s) && !Blocks(s) && |after| > 1 && after[0] == ',' && after[1] == '"'
    ensures DecodeRound(Inside(s, after)) == Value(",", after[2..])
  {
    var t := Inside(s, after);
    PlainIsItself(s, after);
    assert t[|s| + 1] == ',' && t[|s| + 2] == '"';
    ClosingIs(t, |s| + 1, |s| + 2);
    assert t[|s| + 1..|s| + 2] == "," && t[|s| + 3..] == after[2..];
    assert Unescape(",") == ",";
  }

  // or nothing more at the end.
  lemma EndRead(s: string)
    requires Printable(s) && !Blocks(s)
    ensures DecodeRound(Inside(s, "}")) == NoValue
  {
    PlainIsItself(s, "}");
    assert Inside(s, "}")[|s| + 1] == '}';
  }

  // ---------------------------------------------------------------------------------------
  // All strings

  ghost predicate SomeBlocks(l: seq<string>) { exists i :: 0 <= i < |l| && Blocks(l[i]) }

  ghost function Commas(n: nat): (r: seq<string>)
    ensures |r| == n
  {
    seq(n, _ => ",")
  }

  // What is read of a printed list.  Up to the first string with a final backslash every
  // string is read without its escapes.  That one is lost if it is the last; otherwise it
  // takes in a comma, and from then on commas are read in place of the strings.
  ghost function ReadBack(l: seq<string>): Outcome {
    if l == [] then Parsed([])
    else if !EndsInBackslash(l[0]) then After([Unescape(l[0])], ReadBack(l[1..]))
    else if |l| == 1 then Parsed([])
    else if SomeBlocks(l[1..]) then Hangs
    else Parsed([Unescape(Swallowing(l[0]))] + Commas(|l| - 2))
  }

  // These values come before the outcome.
  ghost function After(done: seq<string>, o: Outcome): Outcome {
    if o.Parsed? then Parsed(done + o.values) else o
  }

  lemma AfterAfter(a: seq<string>, b: seq<string>, o: Outcome)
    ensures After(a, After(b, o)) == After(a + b, o)
  {
    assert o.Parsed? ==> a + (b + o.values) == a + b + o.values;
  }

  lemma ItemsParts(l: seq<string>)
    requires l != []
    ensures Items(l) == TextAt(',', l[0], Items(l[1..]))
    ensures |Items(l)| > 1 && Items(l)[0] == ',' && Items(l)[1] == '"' && Items(l)[2..] == Inside(l[0], Items(l[1..]))
  {
    assert Items(l) == [','] + ['"'] + Inside(l[0], Items(l[1..]));
  }

  // What is read of these strings from inside the opening quote of the first.
  ghost function ReadInside(l: seq<string>, done: seq<string>): Outcome
    requires l != []
  {
    DecodeRest(Inside(l[0], Items(l[1..])), done)
  }

  lemma BlockStep(l: seq<string>, done: seq<string>)
    requires l != [] && Printable(l[0]) && Blocks(l[0])
    ensures ReadInside(l, done) == Hangs
  {
    BlockingIsStuck(l[0], Items(l[1..]));
  }

  lemma EndStep(l: seq<string>, done: seq<string>)
    requires |l| == 1 && Printable(l[0]) && !Blocks(l[0])
    ensures ReadInside(l, done) == Parsed(done)
  {
    assert Items(l[1..]) == "}";
    EndRead(l[0]);
  }

  lemma CommaStep(l: seq<string>, done: seq<string>)
    requires |l| > 1 && Printable(l[0]) && !Blocks(l[0])
    ensures ReadInside(l, done) == ReadInside(l[1..], done + [","])
  {
    ItemsParts(l[1..]);
    CommaRead(l[0], Items(l[1..]));
  }

  lemma OneMoreComma(done: seq<string>, n: nat)
    ensures done + [","] + Commas(n) == done + Commas(n + 1)
  {
  }

  lemma {:induction false} OutOfPhaseHangs(l: seq<string>, done: seq<string>, k: nat)
    requires k < |l| && AllPrintable(l) && Blocks(l[k])
    ensures ReadInside(l, done) == Hangs
    decreases k
  {
    if Blocks(l[0]) {
      BlockStep(l, done);
    } else {
      CommaStep(l, done);
      OutOfPhaseHangs(l[1..], done + [","], k - 1);
    }
  }

  lemma {:induction false} OutOfPhaseReads(l: seq<string>, done: seq<string>)
    requires l != [] && AllPrintable(l) && forall s :: s in l ==> !Blocks(s)
    ensures ReadInside(l, done) == Parsed(done + Commas(|l| - 1))
    decreases |l|
  {
    if |l| == 1 {
      EndStep(l, done);
      assert done + Commas(0) == done;
    } else {
      CommaStep(l, done);
      OutOfPhaseReads(l[1..], done + [","]);
      OneMoreComma(done, |l| - 2);
    }
  }

  // Out of phase the strings are not read at all.
  lemma OutOfPhase(l: seq<string>, done: seq<string>)
    requires l != [] && AllPrintable(l)
    ensures ReadInside(l, done) == if SomeBlocks(l) then Hangs else Parsed(done + Commas(|l| - 1))
  {
    if k: nat :| k < |l| && Blocks(l[k]) {
      OutOfPhaseHangs(l, done, k);
    } else {
      OutOfPhaseReads(l, done);
    }
  }

  // From a string with a final backslash on.
  lemma BackslashRead(sep: char, l: seq<string>, done: seq<string>)
    requires sep == '{' || sep == ','
    requires l != [] && AllPrintable(l) && EndsInBackslash(l[0])
    ensures DecodeRest(TextAt(sep, l[0], Items(l[1..])), done) == After(done, ReadBack(l))
  {
    if |l| == 1 {
      LastStringLost(sep, l[0]);
    } else {
      var value := Unescape(Swallowing(l[0]));
      ItemsParts(l[1..]);
      CommaSwallowed(sep, l[0], Items(l[1..]));
      OutOfPhase(l[1..], done + [value]);
      AfterAfter(done, [value], Parsed(Commas(|l| - 2)));
    }
  }

  lemma {:induction false} ItemsRead(sep: char, l: seq<string>, done: seq<string>)
    requires sep == '{' || sep == ','
    requires l != [] && AllPrintable(l)
    ensures DecodeRest(TextAt(sep, l[0], Items(l[1..])), done) == After(done, ReadBack(l))
    decreases |l|
  {
    if EndsInBackslash(l[0]) {
      BackslashRead(sep, l, done);
    } else {
      var value := Unescape(l[0]);
      RoundReadsString(sep, l[0], Items(l[1..]));
      AfterAfter(done, [value], ReadBack(l[1..]));
      if |l| > 1 {
        ItemsParts(l[1..]);
        ItemsRead(',', l[1..], done + [value]);
      }
    }
  }

  // What the parser makes of any printed list.
  lemma PrintedReadBack(l: seq<string>)
    requires AllPrintable(l)
    ensures Decode(Encode(l)) == ReadBack(l)
  {
    assert Encode(l)[0] == '{';
    if l == [] {
      assert Find("{}", 0) == -1;
    } else {
      ItemsRead('{', l, []);
      assert Encode(l) == TextAt('{', l[0], Items(l[1..]));
      assert ReadBack(l).Parsed? ==> [] + ReadBack(l).values == ReadBack(l).values;
    }
  }

  // ---------------------------------------------------------------------------------------
  // Which lists come back, and on which the parser does not end

  ghost function Unescaped(l: seq<string>): seq<string> {
    if l == [] then [] else [Unescape(l[0])] + Unescaped(l[1..])
  }

  lemma {:induction false} ReadBackUnescapes(l: seq<string>)
    requires forall s :: s in l ==> !EndsInBackslash(s)
    ensures ReadBack(l) == Parsed(Unescaped(l))
  {
    if l != [] {
      ReadBackUnescapes(l[1..]);
    }
  }

  // Unless a string ends in a backslash, the parser reads every string without its escapes.
  lemma RoundTripUnescapes(l: seq<string>)
    requires AllPrintable(l) && forall s :: s in l ==> !EndsInBackslash(s)
    ensures Decode(Encode(l)) == Parsed(Unescaped(l))
  {
    PrintedReadBack(l);
    ReadBackUnescapes(l);
  }

  predicate Faithful(s: string) { !HasEscape(s) && !EndsInBackslash(s) }

  ghost predicate AllFaithful(l: seq<string>) { forall s :: s in l ==> Faithful(s) }

  lemma HeadAndTail(l: seq<string>)
    requires l != []
    ensures l == [l[0]] + l[1..]
    ensures AllFaithful(l) <==> Faithful(l[0]) && AllFaithful(l[1..])
  {
    assert l == [l[0]] + l[1..];
  }

  // A first value that differs, or none.
  lemma BackslashLost(l: seq<string>)
    requires l != [] && EndsInBackslash(l[0])
    ensures ReadBack(l) != Parsed(l)
  {
    if |l| > 1 && !SomeBlocks(l[1..]) {
      UnescapeKeepsLast(Swallowing(l[0]));
      assert ReadBack(l).values[0] == Unescape(Swallowing(l[0])) != l[0];
    }
  }

  lemma {:induction false} ReadBackSame(l: seq<string>)
    ensures ReadBack(l) == Parsed(l) <==> AllFaithful(l)
  {
    if l != [] {
      HeadAndTail(l);
      if EndsInBackslash(l[0]) {
        BackslashLost(l);
      } else {
        ReadBackSame(l[1..]);
        UnescapeShortens(l[0]);
        var rest := ReadBack(l[1..]);
        if ReadBack(l) == Parsed(l) {
          assert ([Unescape(l[0])] + rest.values)[0] == Unescape(l[0]);
          assert ([Unescape(l[0])] + rest.values)[1..] == rest.values;
        }
      }
    }
  }

  // The parser gets a printed list back if and only if no string has a quote right after a
  // backslash or ends in a backslash.
  lemma RoundTripIff(l: seq<string>)
    requires AllPrintable(l)
    ensures Decode(Encode(l)) == Parsed(l) <==> forall s :: s in l ==> Faithful(s)
  {
    PrintedReadBack(l);
    ReadBackSame(l);
  }

  // After a string with a final backslash comes one that has a quote or a final backslash.
  ghost predicate Tangled(l: seq<string>) {
    exists i, j :: 0 <= i < j < |l| && EndsInBackslash(l[i]) && Blocks(l[j])
  }

  lemma TangledHead(l: seq<string>)
    requires l != []
    ensures Tangled(l) <==> Tangled(l[1..]) || (EndsInBackslash(l[0]) && SomeBlocks(l[1..]))
  {
    if i, j :| 0 <= i < j < |l| && EndsInBackslash(l[i]) && Blocks(l[j]) {
      assert l[1..][j - 1] == l[j] && (i > 0 ==> l[1..][i - 1] == l[i]);
    }
    if i, j :| 0 <= i < j < |l[1..]| && EndsInBackslash(l[1..][i]) && Blocks(l[1..][j]) {
      assert l[i + 1] == l[1..][i] && l[j + 1] == l[1..][j];
    }
    if j :| 0 <= j < |l[1..]| && EndsInBackslash(l[0]) && Blocks(l[1..][j]) {
      assert l[j + 1] == l[1..][j];
    }
  }

  lemma TangledBlocks(l: seq<string>)
    ensures Tangled(l) ==> SomeBlocks(l)
  {
  }

  lemma {:induction false} ReadBackHangs(l: seq<string>)
    ensures ReadBack(l) == Hangs <==> Tangled(l)
  {
    if l != [] {
      TangledHead(l);
      if EndsInBackslash(l[0]) {
        TangledBlocks(l[1..]);
      } else {
        ReadBackHangs(l[1..]);
      }
    }
  }

  // The parser does not end on a printed list if and only if, after a string with a final
  // backslash, there is one that has a quote or a final backslash.
  lemma HangsIff(l: seq<string>)
    requires AllPrintable(l)
    ensures Decode(Encode(l)) == Hangs <==> Tangled(l)
  {
    PrintedReadBack(l);
    ReadBackHangs(l);
  }

  // Such a list.
  lemma PrintedTextHangs()
    ensures var l: seq<string> := [['a', '\\'], ['b', '"', 'c']]; AllPrintable(l) && Decode(Encode(l)) == Hangs
  {
    var l: seq<string> := [['a', '\\'], ['b', '"', 'c']];
    assert EndsInBackslash(l[0]) && Blocks(l[1]);
    HangsIff(l);
  }
}
