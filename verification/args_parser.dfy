/** The escape-aware argument tokenizer of src/args_parser.rs.

    The parser walks the characters once, keeping a "reading a quoted
    string" flag, the quote character that started the region and a buffer.
    A backslash followed by any character appends that character verbatim
    in every state, quoted or not (unlike the Shell Command Language of
    POSIX.1-2017, section 2.2.2, where single quotes suppress escapes).
    Unquoted runs of spaces collapse to one space that becomes the LEADING
    character of the next token, so `echo` can join tokens with no
    separator. Quoted regions that are empty (or hold a single space)
    produce no token. */
module ArgsParser {
  import opened Text

  /** The scanner state: `reading_string`, `quotes_type`, the buffer and the
      tokens emitted so far. */
  datatype Parser = Parser(reading: bool, quote: char, buffer: string, arguments: seq<string>)

  /** `ArgsParser::new`: not in a quoted region, quote type `'`. */
  const Init := Parser(false, '\'', [], [])

  predicate IsQuote(c: char) {
    c == '\'' || c == '"'
  }

  predicate NoEmptyToken(tokens: seq<string>) {
    forall i :: 0 <= i < |tokens| ==> tokens[i] != []
  }

  function Push(p: Parser, c: char): Parser {
    p.(buffer := p.buffer + [c])
  }

  /** Emits a non-empty buffer as a token and clears it; an empty buffer
      emits nothing. */
  function Flush(p: Parser): (r: Parser)
    ensures r.buffer == [] && r.reading == p.reading && r.quote == p.quote
    ensures r.arguments == p.arguments + (if p.buffer == [] then [] else [p.buffer])
  {
    if p.buffer == [] then p else p.(arguments := p.arguments + [p.buffer], buffer := [])
  }

  /** One character that is not the start of an escape (a backslash with a
      following character is handled by `Run`). */
  function Step(p: Parser, c: char): (r: Parser)
    ensures p.arguments <= r.arguments && |r.arguments| <= |p.arguments| + 1
    ensures NoEmptyToken(p.arguments) ==> NoEmptyToken(r.arguments)
  {
    if IsQuote(c) then
      if p.reading then
        if p.quote == c then
          var arg := if p.buffer == [] then " " else p.buffer;
          p.(reading := false,
             arguments := if arg != " " then p.arguments + [arg] else p.arguments,
             buffer := [])
        else Push(p, c)
      else Flush(p).(reading := true, quote := c)
    else if c == ' ' && !p.reading then
      var q := if p.buffer != [] && !EndsWithSpace(p.buffer) then Flush(p) else p;
      if !EndsWithSpace(q.buffer) then Push(q, c) else q
    else if c == '\n' && !p.reading then Flush(p)
    else Push(p, c)
  }

  /** The main loop: a backslash with a successor consumes two characters
      and appends the successor; any other character (a trailing lone
      backslash included) goes through `Step`. */
  function Run(p: Parser, s: string): (r: Parser)
    ensures p.arguments <= r.arguments
    decreases |s|
  {
    if s == [] then p
    else if s[0] == '\\' && |s| > 1 then Run(Push(p, s[1]), s[2..])
    else Run(Step(p, s[0]), s[1..])
  }

  /** End of input: a non-empty buffer becomes the last token, even when a
      quoted region is still open. */
  function Finish(p: Parser): (tokens: seq<string>)
    ensures NoEmptyToken(p.arguments) ==> NoEmptyToken(tokens)
  {
    Flush(p).arguments
  }

  /** `ArgsParser::new(args).parse()`. */
  function Tokenize(s: string): (tokens: seq<string>)
    ensures NoEmptyToken(tokens)
  {
    NoEmptyTokensRun(Init, s);
    Finish(Run(Init, s))
  }

  /** The loop of `ArgsParser::parse` as written: an index that advances by
      two on an escape and by one otherwise. */
  method Parse(chars: string) returns (arguments: seq<string>)
    ensures arguments == Tokenize(chars)
    ensures NoEmptyToken(arguments)
  {
    arguments := [];
    var buffer: string := [];
    var reading := false;
    var quote := '\'';
    var i := 0;
    while i < |chars|
      invariant 0 <= i <= |chars|
      invariant Run(Parser(reading, quote, buffer, arguments), chars[i..]) == Run(Init, chars)
      invariant NoEmptyToken(arguments)
      decreases |chars| - i
    {
      ghost var before := Parser(reading, quote, buffer, arguments);
      var c := chars[i];
      if c == '\\' && i + 1 < |chars| {
        buffer := buffer + [chars[i + 1]];
        assert chars[i..][2..] == chars[i + 2..];
        i := i + 2;
        continue;
      }
      if c == '\'' || c == '"' {
        if reading {
          if quote == c {
            reading := false;
            var arg := if buffer == [] then " " else buffer;
            if arg != " " {
              arguments := arguments + [arg];
            }
            buffer := [];
          } else {
            buffer := buffer + [c];
          }
        } else {
          if buffer != [] {
            arguments := arguments + [buffer];
            buffer := [];
          }
          reading := true;
          quote := c;
        }
      } else if c == ' ' && !reading {
        if buffer != [] && !EndsWithSpace(buffer) {
          arguments := arguments + [buffer];
          buffer := [];
        }
        if !EndsWithSpace(buffer) {
          buffer := buffer + [c];
        }
      } else if c == '\n' && !reading {
        if buffer != [] {
          arguments := arguments + [buffer];
          buffer := [];
        }
      } else {
        buffer := buffer + [c];
      }
      assert Parser(reading, quote, buffer, arguments) == Step(before, c);
      assert chars[i..][1..] == chars[i + 1..];
      i := i + 1;
    }
    assert chars[i..] == [];
    ghost var last := Parser(reading, quote, buffer, arguments);
    if buffer != [] {
      arguments := arguments + [buffer];
    }
    assert arguments == Finish(last);
    NoEmptyTokensRun(Init, chars);
  }

  // ---------------------------------------------------------------------
  // No empty token

  lemma {:induction false} NoEmptyTokensRun(p: Parser, s: string)
    requires NoEmptyToken(p.arguments)
    ensures NoEmptyToken(Run(p, s).arguments)
    decreases |s|
  {
    if s == [] {
    } else if s[0] == '\\' && |s| > 1 {
      NoEmptyTokensRun(Push(p, s[1]), s[2..]);
    } else {
      NoEmptyTokensRun(Step(p, s[0]), s[1..]);
    }
  }

  /** No emitted token is the empty string, whatever the input. */
  lemma NoEmptyTokens(s: string)
    ensures NoEmptyToken(Tokenize(s))
  {
    NoEmptyTokensRun(Init, s);
  }

  // ---------------------------------------------------------------------
  // Composition

  /** The input ends in a backslash that no following character completes:
      scanned alone it is a literal, followed by more text it escapes. */
  predicate DanglingBackslash(s: string)
    decreases |s|
  {
    if s == [] then false
    else if s[0] == '\\' then |s| == 1 || DanglingBackslash(s[2..])
    else DanglingBackslash(s[1..])
  }

  /** Scanning a concatenation is scanning the halves in turn, provided the
      cut does not separate a backslash from the character it escapes. */
  lemma {:induction false} RunAppend(p: Parser, s1: string, s2: string)
    requires !DanglingBackslash(s1)
    ensures Run(p, s1 + s2) == Run(Run(p, s1), s2)
    decreases |s1|
  {
    if s1 == [] {
      assert s1 + s2 == s2;
    } else if s1[0] == '\\' {
      assert |s1| > 1;
      assert (s1 + s2)[2..] == s1[2..] + s2;
      RunAppend(Push(p, s1[1]), s1[2..], s2);
    } else {
      assert (s1 + s2)[1..] == s1[1..] + s2;
      RunAppend(Step(p, s1[0]), s1[1..], s2);
    }
  }

  /** A backslash and the character after it append that character
      verbatim in every state: outside quotes, inside single quotes and
      inside double quotes alike. */
  lemma EscapeIsVerbatim(p: Parser, c: char, rest: string)
    ensures Run(p, ['\\', c] + rest) == Run(p.(buffer := p.buffer + [c]), rest)
  {
    assert (['\\', c] + rest)[2..] == rest;
  }

  /** A backslash that ends the input is kept as a literal character. */
  lemma TrailingBackslashIsLiteral(s: string)
    requires !DanglingBackslash(s)
    ensures Tokenize(s + ['\\']) == Finish(Push(Run(Init, s), '\\'))
  {
    RunAppend(Init, s, ['\\']);
  }

  /** Two states that differ only in a quote type that is not in use. */
  predicate Equivalent(x: Parser, y: Parser) {
    x.reading == y.reading && x.buffer == y.buffer && x.arguments == y.arguments
    && (x.reading ==> x.quote == y.quote)
  }

  /** Outside a quoted region the remembered quote type never matters. */
  lemma {:induction false} RunRespectsEquivalence(x: Parser, y: Parser, s: string)
    requires Equivalent(x, y)
    ensures Equivalent(Run(x, s), Run(y, s))
    ensures Finish(Run(x, s)) == Finish(Run(y, s))
    decreases |s|
  {
    if s == [] {
    } else if s[0] == '\\' && |s| > 1 {
      RunRespectsEquivalence(Push(x, s[1]), Push(y, s[1]), s[2..]);
    } else {
      RunRespectsEquivalence(Step(x, s[0]), Step(y, s[0]), s[1..]);
    }
  }

  /** Tokens already emitted are never looked at again: scanning from a
      state with more tokens yields the same tokens after them. */
  lemma {:induction false} RunIgnoresEmitted(p: Parser, a: seq<string>, s: string)
    ensures Run(p.(arguments := a + p.arguments), s)
         == Run(p, s).(arguments := a + Run(p, s).arguments)
    decreases |s|
  {
    var p' := p.(arguments := a + p.arguments);
    if s == [] {
    } else if s[0] == '\\' && |s| > 1 {
      assert Push(p', s[1]) == Push(p, s[1]).(arguments := a + Push(p, s[1]).arguments);
      RunIgnoresEmitted(Push(p, s[1]), a, s[2..]);
    } else {
      var q := Step(p, s[0]);
      assert Step(p', s[0]).arguments == a + q.arguments by {
        if q.arguments == p.arguments + [p.buffer] {
          assert a + p.arguments + [p.buffer] == a + (p.arguments + [p.buffer]);
        }
      }
      assert Step(p', s[0]) == q.(arguments := a + q.arguments);
      RunIgnoresEmitted(q, a, s[1..]);
    }
  }

  /** A scan that starts with tokens `a` and an idle, empty buffer yields
      `a` followed by the tokens of the rest. */
  lemma TokenizeAfter(p: Parser, s: string)
    requires !p.reading && p.buffer == []
    ensures Finish(Run(p, s)) == p.arguments + Tokenize(s)
  {
    var p0 := p.(arguments := []);
    RunRespectsEquivalence(p0, Init, s);
    RunIgnoresEmitted(p0, p.arguments, s);
    assert p0.(arguments := p.arguments + p0.arguments) == p;
  }

  /** An unquoted newline ends the current token: when the text before it
      leaves no quoted region open, the two sides tokenize independently. */
  lemma NewlineSeparates(s1: string, s2: string)
    requires !DanglingBackslash(s1) && !Run(Init, s1).reading
    ensures Tokenize(s1 + ['\n'] + s2) == Tokenize(s1) + Tokenize(s2)
  {
    RunAppend(Init, s1, ['\n'] + s2);
    assert s1 + ['\n'] + s2 == s1 + (['\n'] + s2);
    var p := Run(Init, s1);
    assert (['\n'] + s2)[1..] == s2;
    assert Run(p, ['\n'] + s2) == Run(Flush(p), s2);
    TokenizeAfter(Flush(p), s2);
  }

  // ---------------------------------------------------------------------
  // Quoted regions

  /** Inside a region started by `q`, every character other than `q` and the
      backslash (spaces, newlines and the other quote included) is kept
      literally. */
  lemma {:induction false} QuotedIsLiteral(p: Parser, w: string, rest: string)
    requires p.reading
    requires forall i :: 0 <= i < |w| ==> w[i] != p.quote && w[i] != '\\'
    ensures Run(p, w + rest) == Run(p.(buffer := p.buffer + w), rest)
    decreases |w|
  {
    if w == [] {
      assert w + rest == rest;
      assert p.buffer + w == p.buffer;
    } else {
      assert (w + rest)[0] == w[0];
      assert (w + rest)[1..] == w[1..] + rest;
      assert Step(p, w[0]) == Push(p, w[0]);
      QuotedIsLiteral(Push(p, w[0]), w[1..], rest);
      assert p.buffer + [w[0]] + w[1..] == p.buffer + w;
    }
  }

  /** Opening a quote outside a quoted region first emits a non-empty buffer
      (possibly a lone separator space) as its own token; the quote character
      itself is not kept. */
  lemma OpeningQuoteFlushes(p: Parser, q: char)
    requires !p.reading && IsQuote(q)
    ensures Step(p, q).reading && Step(p, q).quote == q && Step(p, q).buffer == []
    ensures Step(p, q).arguments == p.arguments + (if p.buffer == [] then [] else [p.buffer])
  {
  }

  /** A quoted region at the start of the input: its content becomes one
      token unless it is empty or a single space, in which case nothing is
      emitted; then the rest tokenizes on its own. */
  lemma QuotedToken(q: char, w: string, s: string)
    requires IsQuote(q)
    requires forall i :: 0 <= i < |w| ==> w[i] != q && w[i] != '\\'
    ensures Tokenize([q] + w + [q] + s) == (if w == [] || w == " " then [] else [w]) + Tokenize(s)
  {
    var start := Step(Init, q);
    assert start == Parser(true, q, [], []);
    assert ([q] + w + [q] + s)[1..] == w + ([q] + s);
    QuotedIsLiteral(start, w, [q] + s);
    var filled := start.(buffer := w);
    assert start.(buffer := start.buffer + w) == filled;
    assert ([q] + s)[1..] == s;
    var closed := Step(filled, q);
    assert closed.arguments == (if w == [] || w == " " then [] else [w]);
    TokenizeAfter(closed, s);
  }

  /** An unterminated quote is not an error: what it accumulated is the
      final token. */
  lemma UnterminatedQuote(q: char, w: string)
    requires IsQuote(q)
    requires forall i :: 0 <= i < |w| ==> w[i] != q && w[i] != '\\'
    ensures Tokenize([q] + w) == (if w == [] then [] else [w])
  {
    var start := Step(Init, q);
    assert ([q] + w)[1..] == w + [];
    assert Run(Init, [q] + w) == Run(start, w + []);
    QuotedIsLiteral(start, w, []);
    assert Run(Init, [q] + w) == start.(buffer := w);
  }

  // ---------------------------------------------------------------------
  // Unquoted spaces

  /** No quote, no backslash and no newline. */
  predicate Plain(s: string) {
    forall i :: 0 <= i < |s| ==> !IsQuote(s[i]) && s[i] != '\\' && s[i] != '\n'
  }

  /** Reference definition: each maximal run of spaces replaced by one
      space; `afterSpace` says the text so far already ends in a space. */
  function CollapseAfter(afterSpace: bool, s: string): (r: string)
    ensures afterSpace ==> r == [] || r[0] != ' '
    ensures forall i :: 0 <= i < |r| - 1 ==> r[i] != ' ' || r[i + 1] != ' '
    ensures |r| <= |s|
    decreases |s|
  {
    if s == [] then []
    else if s[0] == ' ' then
      if afterSpace then CollapseAfter(true, s[1..]) else [' '] + CollapseAfter(true, s[1..])
    else [s[0]] + CollapseAfter(false, s[1..])
  }

  function CollapseSpaces(s: string): string {
    CollapseAfter(false, s)
  }

  lemma JoinFinish(p: Parser)
    ensures Join(Finish(p)) == Join(p.arguments) + p.buffer
  {
    JoinAppend(p.arguments, if p.buffer == [] then [] else [p.buffer]);
  }

  /** What one character contributes to the collapsed text. */
  function Piece(afterSpace: bool, c: char): string {
    if c != ' ' then [c] else if afterSpace then [] else [' ']
  }

  lemma CollapseCons(afterSpace: bool, c: char, t: string)
    ensures CollapseAfter(afterSpace, [c] + t) == Piece(afterSpace, c) + CollapseAfter(c == ' ', t)
  {
    assert ([c] + t)[0] == c && ([c] + t)[1..] == t;
  }

  /** The text a state stands for: the tokens so far, then the buffer. */
  function Spelled(p: Parser): string {
    Join(p.arguments) + p.buffer
  }

  /** One plain character, outside quotes, adds its share of the collapsed
      text, and the buffer ends in a space exactly when it was a space. */
  lemma StepPlainText(p: Parser, c: char)
    requires !p.reading && !IsQuote(c) && c != '\\' && c != '\n'
    ensures !Step(p, c).reading
    ensures Spelled(Step(p, c)) == Spelled(p) + Piece(EndsWithSpace(p.buffer), c)
    ensures EndsWithSpace(Step(p, c).buffer) == (c == ' ')
  {
    var q := Step(p, c);
    if c != ' ' {
      assert q == Push(p, c);
      assert Spelled(q) == Join(p.arguments) + (p.buffer + [c]);
    } else if p.buffer == [] {
      assert q == Push(p, c);
      assert Spelled(q) == Join(p.arguments) + [' '];
    } else if EndsWithSpace(p.buffer) {
      assert q == p;
      assert Spelled(p) + [] == Spelled(p);
    } else {
      assert q == Parser(false, p.quote, " ", p.arguments + [p.buffer]);
      JoinAppend(p.arguments, [p.buffer]);
      assert Join(q.arguments) == Join(p.arguments) + p.buffer;
    }
  }

  /** Regrouping three strings, stated apart so that it is proved without
      the surrounding facts. */
  lemma Regroup(a: string, b: string, c: string)
    ensures a + b + c == a + (b + c)
  {
  }

  /** Outside quotes, on plain text, the emitted tokens plus the buffer
      always spell the text seen so far with its space runs collapsed. */
  lemma {:induction false} RunPlainJoin(p: Parser, s: string)
    requires !p.reading && Plain(s)
    ensures !Run(p, s).reading
    ensures Spelled(Run(p, s)) == Spelled(p) + CollapseAfter(EndsWithSpace(p.buffer), s)
    decreases |s|
  {
    if s != [] {
      var c, t := s[0], s[1..];
      var q := Step(p, c);
      assert s == [c] + t;
      assert Plain(t);
      RunStep(p, c, t);
      StepPlainText(p, c);
      RunPlainJoin(q, t);
      CollapseCons(EndsWithSpace(p.buffer), c, t);
      var before, piece, tail := Spelled(p), Piece(EndsWithSpace(p.buffer), c), CollapseAfter(c == ' ', t);
      assert Spelled(Run(q, t)) == before + piece + tail;
      Regroup(before, piece, tail);
    }
  }

  /** Joining the tokens of a plain argument string with no separator (what
      `echo` does) gives the string with every run of spaces collapsed to
      one space. */
  lemma TokensJoinToCollapsedInput(s: string)
    requires Plain(s)
    ensures Join(Tokenize(s)) == CollapseSpaces(s)
  {
    RunPlainJoin(Init, s);
    JoinFinish(Run(Init, s));
    assert Spelled(Init) == [];
  }

  function Spaces(n: nat): (r: string)
    ensures |r| == n && forall i :: 0 <= i < n ==> r[i] == ' '
  {
    if n == 0 then [] else [' '] + Spaces(n - 1)
  }

  /** Once the buffer ends in a space (an escaped one, say), following
      unquoted spaces add nothing. */
  lemma {:induction false} SpacesAfterSpaceAddNothing(p: Parser, n: nat, rest: string)
    requires !p.reading && EndsWithSpace(p.buffer)
    ensures Run(p, Spaces(n) + rest) == Run(p, rest)
  {
    if n > 0 {
      assert (Spaces(n) + rest)[0] == ' ';
      assert (Spaces(n) + rest)[1..] == Spaces(n - 1) + rest;
      assert Step(p, ' ') == p;
      SpacesAfterSpaceAddNothing(p, n - 1, rest);
    } else {
      assert Spaces(n) + rest == rest;
    }
  }

  /** A character other than a backslash is one `Step`. */
  lemma RunStep(p: Parser, c: char, rest: string)
    requires c != '\\'
    ensures Run(p, [c] + rest) == Run(Step(p, c), rest)
  {
    assert ([c] + rest)[1..] == rest;
  }

  /** Text with no quote, backslash, space or newline. */
  predicate Word(w: string) {
    forall i :: 0 <= i < |w| ==> !IsQuote(w[i]) && w[i] !in "\\ \n"
  }

  /** A word is appended to the buffer verbatim, inside or outside a quoted
      region. */
  lemma {:induction false} WordIsLiteral(p: Parser, w: string, rest: string)
    requires Word(w)
    ensures Run(p, w + rest) == Run(p.(buffer := p.buffer + w), rest)
    decreases |w|
  {
    if w == [] {
      assert w + rest == rest;
      assert p.buffer + w == p.buffer;
    } else {
      assert w + rest == [w[0]] + (w[1..] + rest);
      RunStep(p, w[0], w[1..] + rest);
      WordIsLiteral(Push(p, w[0]), w[1..], rest);
      assert p.buffer + [w[0]] + w[1..] == p.buffer + w;
    }
  }

  /** Examples, each with its expected tokens. */
  lemma ExampleQuotedSpaces()
    ensures Tokenize("\"foo   bar\"") == ["foo   bar"]
  {
    assert "\"foo   bar\"" == ['"'] + "foo   bar" + ['"'] + [];
    QuotedToken('"', "foo   bar", []);
  }

  lemma ExampleEmptyQuotes()
    ensures Tokenize("\"\"") == [] && Tokenize("''") == []
  {
    assert "\"\"" == ['"'] + [] + ['"'] + [];
    QuotedToken('"', [], []);
    assert "''" == ['\''] + [] + ['\''] + [];
    QuotedToken('\'', [], []);
  }

  /** A word with one escaped character inside it is a single token holding
      that character in place of the backslash pair. */
  lemma EscapeInsideWord(a: string, c: char, b: string)
    requires Word(a) && Word(b)
    ensures Tokenize(a + ['\\', c] + b) == [a + [c] + b]
  {
    var p := Init.(buffer := a);
    var q := Init.(buffer := a + [c]);
    assert Run(Init, a + ['\\', c] + b) == Run(p, ['\\', c] + b) by {
      assert a + ['\\', c] + b == a + (['\\', c] + b);
      WordIsLiteral(Init, a, ['\\', c] + b);
      assert Init.(buffer := Init.buffer + a) == p;
    }
    assert Run(p, ['\\', c] + b) == Run(q, b) by {
      EscapeIsVerbatim(p, c, b);
    }
    assert Run(q, b) == Init.(buffer := a + [c] + b) by {
      assert b == b + [];
      WordIsLiteral(q, b, []);
    }
  }

  lemma ExampleEscapedBackslash()
    ensures Tokenize("hello\\\\world") == ["hello\\world"]
  {
    assert "hello\\\\world" == "hello" + ['\\', '\\'] + "world";
    EscapeInsideWord("hello", '\\', "world");
    assert "hello" + ['\\'] + "world" == "hello\\world";
  }

  /** A word between two escaped characters is one token holding the word
      and the two characters, whatever they are. */
  lemma EscapesAroundWord(c: char, w: string, d: char)
    requires Word(w)
    ensures Tokenize(['\\', c] + w + ['\\', d]) == [[c] + w + [d]]
  {
    var p := Init.(buffer := [c]);
    var q := Init.(buffer := [c] + w);
    assert Run(Init, ['\\', c] + w + ['\\', d]) == Run(p, w + ['\\', d]) by {
      assert ['\\', c] + w + ['\\', d] == ['\\', c] + (w + ['\\', d]);
      EscapeIsVerbatim(Init, c, w + ['\\', d]);
      assert Init.(buffer := Init.buffer + [c]) == p;
    }
    assert Run(p, w + ['\\', d]) == Run(q, ['\\', d]) by {
      WordIsLiteral(p, w, ['\\', d]);
    }
    assert Run(q, ['\\', d]) == Init.(buffer := [c] + w + [d]) by {
      assert ['\\', d] == ['\\', d] + [];
      EscapeIsVerbatim(q, d, []);
    }
  }

  lemma ExampleEscapedQuotes()
    ensures Tokenize("\\'hello\\'") == ["'hello'"]
  {
    assert "\\'hello\\'" == ['\\', '\''] + "hello" + ['\\', '\''];
    EscapesAroundWord('\'', "hello", '\'');
    assert ['\''] + "hello" + ['\''] == "'hello'";
  }

  /** `n` backslash-space pairs. */
  function EscapedSpaces(n: nat): string {
    if n == 0 then [] else ['\\', ' '] + EscapedSpaces(n - 1)
  }

  /** Each escaped space lands in the buffer, whatever the buffer ends in. */
  lemma {:induction false} EscapedSpacesAreKept(p: Parser, n: nat, rest: string)
    ensures Run(p, EscapedSpaces(n) + rest) == Run(p.(buffer := p.buffer + Spaces(n)), rest)
    decreases n
  {
    if n == 0 {
      assert EscapedSpaces(n) + rest == rest;
      assert p.buffer + Spaces(n) == p.buffer;
    } else {
      var p' := p.(buffer := p.buffer + [' ']);
      assert EscapedSpaces(n) + rest == ['\\', ' '] + (EscapedSpaces(n - 1) + rest);
      EscapeIsVerbatim(p, ' ', EscapedSpaces(n - 1) + rest);
      EscapedSpacesAreKept(p', n - 1, rest);
      assert p'.buffer + Spaces(n - 1) == p.buffer + Spaces(n);
    }
  }

  /** Escaped spaces between two words join them into one token that keeps
      every one of those spaces. */
  lemma EscapedSpacesJoinWords(a: string, n: nat, b: string)
    requires Word(a) && Word(b) && (a + b != [] || n > 0)
    ensures Tokenize(a + EscapedSpaces(n) + b) == [a + Spaces(n) + b]
  {
    var p := Init.(buffer := a);
    var q := Init.(buffer := a + Spaces(n));
    assert Run(Init, a + EscapedSpaces(n) + b) == Run(p, EscapedSpaces(n) + b) by {
      assert a + EscapedSpaces(n) + b == a + (EscapedSpaces(n) + b);
      WordIsLiteral(Init, a, EscapedSpaces(n) + b);
      assert Init.(buffer := Init.buffer + a) == p;
    }
    assert Run(p, EscapedSpaces(n) + b) == Run(q, b) by {
      EscapedSpacesAreKept(p, n, b);
    }
    assert Run(q, b) == Init.(buffer := a + Spaces(n) + b) by {
      assert b == b + [];
      WordIsLiteral(q, b, []);
    }
  }

  /** An escaped space swallows the unquoted spaces right after it: the
      buffer already ends in a space, so they neither flush nor append. */
  lemma EscapedSpaceAbsorbsSpaces(a: string, n: nat, b: string)
    requires Word(a) && Word(b)
    ensures Tokenize(a + ['\\', ' '] + Spaces(n) + b) == [a + [' '] + b]
  {
    var p := Init.(buffer := a);
    var q := Init.(buffer := a + [' ']);
    assert Run(Init, a + ['\\', ' '] + Spaces(n) + b) == Run(p, ['\\', ' '] + (Spaces(n) + b)) by {
      assert a + ['\\', ' '] + Spaces(n) + b == a + (['\\', ' '] + (Spaces(n) + b));
      WordIsLiteral(Init, a, ['\\', ' '] + (Spaces(n) + b));
      assert Init.(buffer := Init.buffer + a) == p;
    }
    assert Run(p, ['\\', ' '] + (Spaces(n) + b)) == Run(q, b) by {
      EscapeIsVerbatim(p, ' ', Spaces(n) + b);
      SpacesAfterSpaceAddNothing(q, n, b);
    }
    assert Run(q, b) == Init.(buffer := a + [' '] + b) by {
      assert b == b + [];
      WordIsLiteral(q, b, []);
    }
  }

  lemma ExampleEscapedSpaces()
    ensures Tokenize("foo\\ \\ \\ bar") == ["foo   bar"]
    ensures Join(Tokenize("foo\\ \\ \\ bar")) == "foo   bar"
  {
    ThreeEscapedSpaces();
    EscapedSpacesJoinWords("foo", 3, "bar");
  }

  lemma ThreeEscapedSpaces()
    ensures "foo\\ \\ \\ bar" == "foo" + EscapedSpaces(3) + "bar"
    ensures "foo" + Spaces(3) + "bar" == "foo   bar"
  {
    var e := ['\\', ' '];
    assert EscapedSpaces(3) == e + (e + (e + [])) by {
      assert EscapedSpaces(1) == e + [];
      assert EscapedSpaces(2) == e + EscapedSpaces(1);
    }
  }

  lemma ExampleEscapedThenPlainSpaces()
    ensures Tokenize("foo\\     bar") == ["foo bar"]
    ensures Join(Tokenize("foo\\     bar")) == "foo bar"
  {
    assert Spaces(4) == "    ";
    assert "foo\\     bar" == "foo" + ['\\', ' '] + Spaces(4) + "bar";
    EscapedSpaceAbsorbsSpaces("foo", 4, "bar");
    assert "foo" + [' '] + "bar" == "foo bar";
  }

  /** A run of unquoted spaces after a word ends that word's token and
      leaves exactly one space at the head of the next token. */
  lemma SeparatorLeadsNextToken(a: string, n: nat, b: string)
    requires Word(a) && a != [] && n > 0 && Word(b)
    ensures Tokenize(a + Spaces(n) + b) == [a, [' '] + b]
  {
    var p := Init.(buffer := a);
    var q := Parser(false, '\'', " ", [a]);
    assert Run(Init, a + Spaces(n) + b) == Run(p, [' '] + (Spaces(n - 1) + b)) by {
      assert a + Spaces(n) + b == a + ([' '] + (Spaces(n - 1) + b));
      WordIsLiteral(Init, a, [' '] + (Spaces(n - 1) + b));
      assert Init.(buffer := Init.buffer + a) == p;
    }
    assert Run(p, [' '] + (Spaces(n - 1) + b)) == Run(q, b) by {
      RunStep(p, ' ', Spaces(n - 1) + b);
      assert a[|a| - 1] != ' ';
      assert Step(p, ' ') == q;
      SpacesAfterSpaceAddNothing(q, n - 1, b);
    }
    assert Run(q, b) == q.(buffer := [' '] + b) by {
      assert b == b + [];
      WordIsLiteral(q, b, []);
    }
  }

  lemma ExampleSeparatorSpace()
    ensures Tokenize("a  b") == ["a", " b"]
  {
    assert Spaces(2) == "  ";
    assert "a  b" == "a" + Spaces(2) + "b";
    SeparatorLeadsNextToken("a", 2, "b");
    assert [' '] + "b" == " b";
  }
}
