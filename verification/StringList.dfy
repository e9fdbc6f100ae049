/** The text form of a list of strings: a printer that escapes quotes and a parser. */
module StringList {
  // ---------------------------------------------------------------------------------------
  // The text form

  // Puts a backslash before each quote that has none; `prev` is the character before s.
  function EscapeFrom(prev: char, s: string): string
    decreases |s|
  {
    if s == "" then ""
    else (if s[0] == '"' && prev != '\\' then ['\\', '"'] else [s[0]]) + EscapeFrom(s[0], s[1..])
  }

  // The printer looks at the character before a string that starts with a quote.
  predicate Printable(s: string) { s == "" || s[0] != '"' }

  function Escape(s: string): string {
    if s == "" then "" else [s[0]] + EscapeFrom(s[0], s[1..])
  }

  function Quoted(s: string): string { ['"'] + Escape(s) + ['"'] }

  // The strings of a list and the end of its text; a separator comes before all but the first.
  function Items(l: seq<string>): string {
    if l == [] then "}" else "," + Quoted(l[0]) + Items(l[1..])
  }

  function Encode(l: seq<string>): string {
    if l == [] then "{}" else "{" + Quoted(l[0]) + Items(l[1..])
  }

  // The strings with a comma between each and the next.
  function Joined(l: seq<string>): string
    requires l != []
  {
    if |l| == 1 then Quoted(l[0]) else Joined(l[..|l| - 1]) + "," + Quoted(l[|l| - 1])
  }

  lemma {:induction false} JoinedItems(a: seq<string>, b: seq<string>)
    requires a != []
    ensures Joined(a) + Items(b) == Joined(a + b) + "}"
    decreases |b|
  {
    if b == [] {
      assert a + b == a;
    } else {
      assert (a + [b[0]])[..|a|] == a && a + [b[0]] + b[1..] == a + b;
      JoinedItems(a + [b[0]], b[1..]);
      Regroup(Joined(a), ",", Quoted(b[0]), Items(b[1..]));
    }
  }

  lemma Associates(a: string, b: string, c: string)
    ensures a + (b + c) == a + b + c
  {
  }

  lemma HeadJoins(l: seq<string>)
    requires l != []
    ensures Quoted(l[0]) + Items(l[1..]) == Joined(l) + "}"
  {
    JoinedItems([l[0]], l[1..]);
    assert [l[0]] + l[1..] == l;
  }

  // The text of a list is in braces.
  lemma EncodeJoins(l: seq<string>)
    ensures Encode(l) == if l == [] then "{}" else "{" + Joined(l) + "}"
  {
    if l != [] {
      HeadJoins(l);
      Associates("{", Quoted(l[0]), Items(l[1..]));
      Associates("{", Joined(l), "}");
    }
  }

  // ---------------------------------------------------------------------------------------
  // Parsing

  datatype Outcome = Parsed(values: seq<string>) | Rejected | Hangs

  // The first quote from a position on, or -1.
  function Find(s: string, from: nat): (r: int)
    requires from <= |s|
    ensures r == -1 || from <= r < |s|
    ensures if r == -1 then forall i :: from <= i < |s| ==> s[i] != '"'
            else s[r] == '"' && forall i :: from <= i < r ==> s[i] != '"'
    decreases |s| - from
  {
    if from == |s| then -1 else if s[from] == '"' then from else Find(s, from + 1)
  }

  predicate EscapedAt(s: string, i: nat)
    requires i < |s|
  {
    s[i] == '"' && i > 0 && s[i - 1] == '\\'
  }

  // The first quote from a position on that is not escaped, or -1.
  function FindClosing(s: string, from: nat): (r: int)
    requires 0 < from <= |s|
    ensures r == -1 || from <= r < |s|
    ensures if r == -1 then forall i :: from <= i < |s| && s[i] == '"' ==> EscapedAt(s, i)
            else s[r] == '"' && !EscapedAt(s, r) && forall i :: from <= i < r && s[i] == '"' ==> EscapedAt(s, i)
    decreases |s| - from
  {
    var i := Find(s, from);
    if i == -1 || !EscapedAt(s, i) then i else FindClosing(s, i + 1)
  }

  predicate StartsEscaped(s: string) { |s| > 1 && s[0] == '\\' && s[1] == '"' }

  // Takes away the backslash before each quote.
  function Unescape(s: string): string {
    if s == "" then ""
    else if StartsEscaped(s) then ['"'] + Unescape(s[2..])
    else [s[0]] + Unescape(s[1..])
  }

  // What one round of the parser finds: no further value, an escaped quote before any value,
  // or a value and the text after it.
  datatype Round = NoValue | Stuck | Value(value: string, rest: string)

  function DecodeRound(text: string): (r: Round)
    ensures r.Value? ==> |r.rest| < |text|
  {
    var index := Find(text, 0);
    if text == "}" || index == -1 then NoValue
    else if EscapedAt(text, index) then Stuck
    else
      var indexB := FindClosing(text, index + 1);
      if indexB == -1 then NoValue else Value(Unescape(text[index + 1..indexB]), text[indexB + 1..])
  }

  // Reads the values from what is left of the text.
  function DecodeRest(text: string, done: seq<string>): Outcome
    decreases |text|
  {
    match DecodeRound(text)
    case NoValue => Parsed(done)
    case Stuck => Hangs
    case Value(value, rest) => DecodeRest(rest, done + [value])
  }

  function Decode(str: string): Outcome {
    if str == "" then Parsed([])
    else if '{' !in str then Rejected
    else DecodeRest(str, [])
  }

  // ---------------------------------------------------------------------------------------
  // The printer

  lemma TakeApart(s: string, n: nat, rest: string)
    requires 0 < n <= |s|
    ensures [s[0]] + (s[1..][..n - 1] + rest) == s[..n] + rest && s[1..][n - 1..] == s[n..]
  {
    assert [s[0]] + s[1..][..n - 1] == s[..n];
    assert [s[0]] + (s[1..][..n - 1] + rest) == [s[0]] + s[1..][..n - 1] + rest;
  }

  // Without quotes there is nothing to escape.
  lemma {:induction false} EscapeSkips(prev: char, s: string, n: nat)
    requires n <= |s| && forall i :: 0 <= i < n ==> s[i] != '"'
    ensures EscapeFrom(prev, s) == s[..n] + EscapeFrom(if n == 0 then prev else s[n - 1], s[n..])
    decreases n
  {
    if n > 0 {
      var t := s[1..];
      var rest := EscapeFrom(s[n - 1], s[n..]);
      assert forall i :: 0 <= i < n - 1 ==> t[i] == s[i + 1];
      EscapeSkips(s[0], t, n - 1);
      TakeApart(s, n, rest);
      assert EscapeFrom(prev, s) == [s[0]] + EscapeFrom(s[0], t);
      assert EscapeFrom(s[0], t) == t[..n - 1] + rest;
    } else {
      assert s[..0] == [] && s[0..] == s;
    }
  }

  // Escaping is done up to `loc` and has yet to be done from there.
  ghost predicate EscapedUpTo(aux: string, loc: int, s: string) {
    if loc == -1 then aux == Escape(s)
    else 0 < loc < |aux| && aux[loc] == '"' && aux[..loc] + EscapeFrom(aux[loc - 1], aux[loc..]) == Escape(s)
  }

  // From a position up to which escaping is done on to the next quote, or to the end.
  lemma SkipToQuote(aux: string, from: nat, s: string)
    requires 0 < from <= |aux| && aux[..from] + EscapeFrom(aux[from - 1], aux[from..]) == Escape(s)
    ensures EscapedUpTo(aux, Find(aux, from), s)
  {
    var loc := Find(aux, from);
    var to := if loc == -1 then |aux| else loc;
    EscapeSkips(aux[from - 1], aux[from..], to - from);
    assert aux[from..][to - from..] == aux[to..];
    Reassociate(aux, from, to, EscapeFrom(aux[to - 1], aux[to..]));
    assert aux[..|aux|] == aux;
  }

  lemma Reassociate(aux: string, from: nat, to: nat, rest: string)
    requires from <= to <= |aux|
    ensures aux[..from] + (aux[from..][..to - from] + rest) == aux[..to] + rest
  {
  }

  // Escaping is done one character further when the quote has its backslash.
  lemma QuoteKept(aux: string, loc: nat, s: string)
    requires EscapedUpTo(aux, loc, s) && aux[loc - 1] == '\\'
    ensures aux[..loc + 1] + EscapeFrom(aux[loc], aux[loc + 1..]) == Escape(s)
  {
    var before, rest := aux[..loc], EscapeFrom('"', aux[loc + 1..]);
    assert aux[loc..][1..] == aux[loc + 1..];
    assert EscapeFrom('\\', aux[loc..]) == ['"'] + rest;
    assert before + (['"'] + rest) == before + ['"'] + rest;
    assert aux[..loc + 1] == before + ['"'];
  }

  lemma QuoteGuarded(aux: string, loc: nat, s: string)
    requires EscapedUpTo(aux, loc, s) && aux[loc - 1] != '\\'
    ensures aux[..loc] + ['\\'] + EscapeFrom('\\', aux[loc..]) == Escape(s)
  {
    var rest := EscapeFrom('"', aux[loc..][1..]);
    assert EscapeFrom(aux[loc - 1], aux[loc..]) == ['\\', '"'] + rest;
    assert EscapeFrom('\\', aux[loc..]) == ['"'] + rest;
    assert ['\\', '"'] + rest == ['\\'] + (['"'] + rest);
  }

  // Escapes the quotes of a string in place.  A quote that has just got its backslash is
  // found once more and then left alone.
  method EscapeQuotes(s: string) returns (aux: string)
    requires Printable(s)
    ensures aux == Escape(s)
  {
    var loc := Find(s, 0);
    aux := s;
    if s == "" {
      return;
    }
    assert Find(s, 0) == Find(s, 1) && s[..1] == [s[0]];
    SkipToQuote(aux, 1, s);
    while loc != -1
      invariant EscapedUpTo(aux, loc, s)
      decreases if loc == -1 then 0 else |aux| - loc, if loc > 0 && aux[loc - 1] != '\\' then 1 else 0
    {
      if aux[loc - 1] != '\\' {
        QuoteGuarded(aux, loc, s);
        ghost var before := aux;
        aux := aux[..loc] + ['\\'] + aux[loc..];
        assert aux[..loc + 1] == before[..loc] + ['\\'] && aux[loc + 1..] == before[loc..];
      } else {
        QuoteKept(aux, loc, s);
      }
      SkipToQuote(aux, loc + 1, s);
      loc := Find(aux, loc + 1);
    }
  }

  // What is still to be printed before string i of the list.
  ghost function Remaining(l: seq<string>, i: nat): string
    requires i <= |l|
  {
    if i == 0 then Encode(l)[1..] else Items(l[i..])
  }

  lemma RemainingStep(l: seq<string>, i: nat)
    requires i < |l|
    ensures Remaining(l, i) == (if i == 0 then "" else ",") + Quoted(l[i]) + Remaining(l, i + 1)
  {
    if i == 0 {
      assert Remaining(l, 0) == Quoted(l[0]) + Items(l[1..]);
      assert "" + Quoted(l[0]) == Quoted(l[0]);
    } else {
      assert l[i..][0] == l[i] && l[i..][1..] == l[i + 1..];
    }
  }

  lemma Regroup(a: string, b: string, c: string, d: string)
    ensures a + (b + c + d) == a + b + c + d
  {
  }

  // One more string has been printed.
  lemma PrintedOne(l: seq<string>, i: nat, ss: string)
    requires i < |l| && ss + Remaining(l, i) == Encode(l)
    ensures ss + (if i == 0 then "" else ",") + Quoted(l[i]) + Remaining(l, i + 1) == Encode(l)
  {
    RemainingStep(l, i);
    Regroup(ss, if i == 0 then "" else ",", Quoted(l[i]), Remaining(l, i + 1));
  }

  method Serialize(l: seq<string>) returns (ss: string)
    requires forall s :: s in l ==> Printable(s)
    ensures ss == Encode(l)
  {
    ss := "{";
    var first := true;
    for i := 0 to |l|
      invariant first == (i == 0)
      invariant ss + Remaining(l, i) == Encode(l)
    {
      PrintedOne(l, i, ss);
      if !first {
        ss := ss + ",";
      } else {
        assert ss + "" == ss;
      }
      first := false;
      var aux := EscapeQuotes(l[i]);
      ss := ss + (['"'] + aux + ['"']);
    }
    ss := ss + "}";
  }

  // ---------------------------------------------------------------------------------------
  // The parser

  // The first backslash before a quote from a position on, or -1.
  function FindEscape(s: string, from: nat): (r: int)
    requires from <= |s|
    ensures r == -1 || (from <= r < |s| && StartsEscaped(s[r..]))
    ensures forall i :: from <= i < (if r == -1 then |s| else r) ==> !StartsEscaped(s[i..])
    decreases |s| - from
  {
    if from == |s| then -1 else if StartsEscaped(s[from..]) then from else FindEscape(s, from + 1)
  }

  lemma {:induction false} UnescapeSkips(s: string, n: nat)
    requires n <= |s| && forall i :: 0 <= i < n ==> !StartsEscaped(s[i..])
    ensures Unescape(s) == s[..n] + Unescape(s[n..])
    decreases n
  {
    if n > 0 {
      assert s[0..] == s;
      forall i | 0 <= i < n - 1 ensures !StartsEscaped(s[1..][i..]) { assert s[1..][i..] == s[i + 1..]; }
      UnescapeSkips(s[1..], n - 1);
      assert s[1..][n - 1..] == s[n..];
      assert [s[0]] + s[1..][..n - 1] == s[..n];
    }
  }

  // Unescaping is done up to a position and has yet to be done from there.
  ghost predicate UnescapedUpTo(value: string, indexC: int, s: string) {
    if indexC == -1 then value == Unescape(s)
    else 0 <= indexC < |value| && StartsEscaped(value[indexC..]) && value[..indexC] + Unescape(value[indexC..]) == Unescape(s)
  }

  lemma SkipToEscape(value: string, from: nat, s: string)
    requires from <= |value| && value[..from] + Unescape(value[from..]) == Unescape(s)
    ensures UnescapedUpTo(value, FindEscape(value, from), s)
  {
    var indexC := FindEscape(value, from);
    var to := if indexC == -1 then |value| else indexC;
    forall i | 0 <= i < to - from ensures !StartsEscaped(value[from..][i..]) {
      assert value[from..][i..] == value[from + i..];
    }
    UnescapeSkips(value[from..], to - from);
    assert value[from..][to - from..] == value[to..];
    Reassociate(value, from, to, Unescape(value[to..]));
    assert value[..|value|] == value;
  }

  lemma BackslashTaken(value: string, indexC: nat)
    requires indexC < |value| && StartsEscaped(value[indexC..])
    ensures Unescape(value[indexC..]) == Unescape(value[indexC + 1..])
  {
    var s := value[indexC..];
    assert s[1..] == value[indexC + 1..] && s[1..][1..] == s[2..];
  }

  // Takes the backslashes before quotes out in place.
  method UnescapeQuotes(s: string) returns (value: string)
    ensures value == Unescape(s)
  {
    value := s;
    var indexC := FindEscape(value, 0);
    assert s[0..] == s;
    SkipToEscape(value, 0, s);
    while indexC != -1
      invariant UnescapedUpTo(value, indexC, s)
      decreases |value|, if indexC == -1 then 0 else 1
    {
      ghost var before := value;
      BackslashTaken(value, indexC);
      value := value[..indexC] + value[indexC + 1..];
      assert value[indexC..] == before[indexC + 1..] && value[..indexC] == before[..indexC];
      SkipToEscape(value, indexC, s);
      indexC := FindEscape(value, indexC);
    }
  }

  // The closing quote of a value that starts after `index`.
  method ClosingQuote(myString: string, index: nat) returns (indexB: int)
    requires index < |myString|
    ensures indexB == FindClosing(myString, index + 1)
  {
    indexB := Find(myString, index + 1);
    while indexB != -1 && EscapedAt(myString, indexB)
      invariant indexB == -1 || (index < indexB < |myString| && Find(myString, indexB) == indexB)
      invariant FindClosing(myString, index + 1) == if indexB == -1 then -1 else FindClosing(myString, indexB)
      decreases if indexB == -1 then 0 else |myString| - indexB
    {
      indexB := Find(myString, indexB + 1);
    }
  }

  // One round: looks for the two quotes of the next value.
  method NextValue(myString: string) returns (round: Round)
    ensures round == DecodeRound(myString)
  {
    if myString == "}" {
      return NoValue;
    }
    var index := Find(myString, 0);
    if index == -1 {
      return NoValue;
    }
    if EscapedAt(myString, index) {
      // The search for a first quote starts at this quote again and again.
      return Stuck;
    }
    var indexB := ClosingQuote(myString, index);
    if indexB == -1 {
      return NoValue;
    }
    var value := UnescapeQuotes(myString[index + 1..indexB]);
    return Value(value, myString[indexB + 1..]);
  }

  // Reads the values one after the other.
  method Deserialize(str: string) returns (outcome: Outcome)
    ensures outcome == Decode(str)
    ensures outcome == Rejected <==> str != "" && '{' !in str
    ensures str == "" ==> outcome == Parsed([])
  {
    if str == "" {
      return Parsed([]);
    }
    if '{' !in str {
      return Rejected;
    }
    var targetVal := [];
    var myString := str;
    while true
      invariant DecodeRest(myString, targetVal) == DecodeRest(str, [])
      decreases |myString|
    {
      var round := NextValue(myString);
      match round {
        case NoValue => return Parsed(targetVal);
        case Stuck => return Hangs;
        case Value(value, rest) =>
          targetVal := targetVal + [value];
          myString := rest;
      }
    }
  }
}
