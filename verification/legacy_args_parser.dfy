/** The older tokenizer declared inside src/shell.rs, which `Shell::parse_cmd`
    calls. It has the same state as the escape-aware parser but no escapes:
    a backslash is an ordinary character. One further difference: when a
    matching quote closes a region whose content is empty or a single space,
    the loop `continue`s before clearing the buffer, so a single space stays
    in the buffer and becomes the leading character of the next token. */
module LegacyArgsParser {
  import opened Text
  import opened ArgsParser

  function LegacyStep(p: Parser, c: char): (r: Parser)
    ensures p.arguments <= r.arguments && |r.arguments| <= |p.arguments| + 1
    ensures NoEmptyToken(p.arguments) ==> NoEmptyToken(r.arguments)
  {
    if IsQuote(c) then
      if p.reading then
        if p.quote == c then
          var arg := if p.buffer == [] then " " else p.buffer;
          if arg == " " then p.(reading := false)
          else p.(reading := false, arguments := p.arguments + [arg], buffer := [])
        else Push(p, c)
      else Flush(p).(reading := true, quote := c)
    else if c == ' ' && !p.reading then
      var q := if p.buffer != [] && !EndsWithSpace(p.buffer) then Flush(p) else p;
      if !EndsWithSpace(q.buffer) then Push(q, c) else q
    else if c == '\n' && !p.reading then Flush(p)
    else Push(p, c)
  }

  function LegacyRun(p: Parser, s: string): (r: Parser)
    ensures p.arguments <= r.arguments
    decreases |s|
  {
    if s == [] then p else LegacyRun(LegacyStep(p, s[0]), s[1..])
  }

  /** `ArgsParser::new(args).parse()` with the parser of src/shell.rs. */
  function LegacyTokenize(s: string): (tokens: seq<string>)
    ensures NoEmptyToken(tokens)
  {
    LegacyNoEmptyTokensRun(Init, s);
    Finish(LegacyRun(Init, s))
  }

  lemma {:induction false} LegacyNoEmptyTokensRun(p: Parser, s: string)
    requires NoEmptyToken(p.arguments)
    ensures NoEmptyToken(LegacyRun(p, s).arguments)
    decreases |s|
  {
    if s != [] {
      LegacyNoEmptyTokensRun(LegacyStep(p, s[0]), s[1..]);
    }
  }

  /** No token of the older parser is empty either. */
  lemma LegacyNoEmptyTokens(s: string)
    ensures NoEmptyToken(LegacyTokenize(s))
  {
    LegacyNoEmptyTokensRun(Init, s);
  }

  lemma {:induction false} LegacyRunAppend(p: Parser, s1: string, s2: string)
    ensures LegacyRun(p, s1 + s2) == LegacyRun(LegacyRun(p, s1), s2)
    decreases |s1|
  {
    if s1 == [] {
      assert s1 + s2 == s2;
    } else {
      assert (s1 + s2)[1..] == s1[1..] + s2;
      LegacyRunAppend(LegacyStep(p, s1[0]), s1[1..], s2);
    }
  }

  lemma {:induction false} LegacyRespectsEquivalence(x: Parser, y: Parser, s: string)
    requires Equivalent(x, y)
    ensures Equivalent(LegacyRun(x, s), LegacyRun(y, s))
    ensures Finish(LegacyRun(x, s)) == Finish(LegacyRun(y, s))
    decreases |s|
  {
    if s != [] {
      LegacyRespectsEquivalence(LegacyStep(x, s[0]), LegacyStep(y, s[0]), s[1..]);
    }
  }

  lemma {:induction false} LegacyIgnoresEmitted(p: Parser, a: seq<string>, s: string)
    ensures LegacyRun(p.(arguments := a + p.arguments), s)
         == LegacyRun(p, s).(arguments := a + LegacyRun(p, s).arguments)
    decreases |s|
  {
    if s != [] {
      var p' := p.(arguments := a + p.arguments);
      var q := LegacyStep(p, s[0]);
      assert LegacyStep(p', s[0]).arguments == a + q.arguments by {
        if q.arguments == p.arguments + [p.buffer] {
          assert a + p.arguments + [p.buffer] == a + (p.arguments + [p.buffer]);
        }
      }
      assert LegacyStep(p', s[0]) == q.(arguments := a + q.arguments);
      LegacyIgnoresEmitted(q, a, s[1..]);
    }
  }

  /** A scan that starts idle with buffer `b` and tokens `a` yields `a`
      followed by the tokens of `b` read as the start of the rest. */
  lemma LegacyTokenizeAfter(p: Parser, s: string)
    requires !p.reading && p.buffer == []
    ensures Finish(LegacyRun(p, s)) == p.arguments + LegacyTokenize(s)
  {
    var p0 := p.(arguments := []);
    LegacyRespectsEquivalence(p0, Init, s);
    LegacyIgnoresEmitted(p0, p.arguments, s);
    assert p0.(arguments := p.arguments + p0.arguments) == p;
  }

  /** Inside a region opened by `q`, every character other than `q`,
      backslashes included, is kept literally. */
  lemma {:induction false} LegacyQuotedIsLiteral(p: Parser, w: string, rest: string)
    requires p.reading
    requires forall i :: 0 <= i < |w| ==> w[i] != p.quote
    ensures LegacyRun(p, w + rest) == LegacyRun(p.(buffer := p.buffer + w), rest)
    decreases |w|
  {
    if w == [] {
      assert w + rest == rest;
      assert p.buffer + w == p.buffer;
    } else {
      assert (w + rest)[0] == w[0];
      assert (w + rest)[1..] == w[1..] + rest;
      assert LegacyStep(p, w[0]) == Push(p, w[0]);
      LegacyQuotedIsLiteral(Push(p, w[0]), w[1..], rest);
      assert p.buffer + [w[0]] + w[1..] == p.buffer + w;
    }
  }

  /** Outside any quoted region, every character other than a quote, a
      space or a newline is kept literally: a backslash is one of them. */
  lemma {:induction false} LegacyWordIsLiteral(p: Parser, w: string, rest: string)
    requires forall i :: 0 <= i < |w| ==> !IsQuote(w[i]) && w[i] != ' ' && w[i] != '\n'
    ensures LegacyRun(p, w + rest) == LegacyRun(p.(buffer := p.buffer + w), rest)
    decreases |w|
  {
    if w == [] {
      assert w + rest == rest;
      assert p.buffer + w == p.buffer;
    } else {
      assert (w + rest)[0] == w[0];
      assert (w + rest)[1..] == w[1..] + rest;
      assert LegacyStep(p, w[0]) == Push(p, w[0]);
      LegacyWordIsLiteral(Push(p, w[0]), w[1..], rest);
      assert p.buffer + [w[0]] + w[1..] == p.buffer + w;
    }
  }

  /** A quoted region at the start of the input. Content other than "" and
      " " is one token. Empty content emits nothing. A single space emits
      nothing either but survives in the buffer, so the region reads exactly
      like one unquoted space. */
  lemma LegacyQuotedToken(q: char, w: string, s: string)
    requires IsQuote(q)
    requires forall i :: 0 <= i < |w| ==> w[i] != q
    ensures w == " " ==> LegacyTokenize([q] + w + [q] + s) == LegacyTokenize(" " + s)
    ensures w != " " ==> LegacyTokenize([q] + w + [q] + s)
                         == (if w == [] then [] else [w]) + LegacyTokenize(s)
  {
    var start := LegacyStep(Init, q);
    assert start == Parser(true, q, [], []);
    assert [q] + w + [q] + s == [q] + (w + ([q] + s));
    assert LegacyRun(Init, [q] + w + [q] + s) == LegacyRun(start, w + ([q] + s));
    LegacyQuotedIsLiteral(start, w, [q] + s);
    var filled := start.(buffer := w);
    assert start.(buffer := start.buffer + w) == filled;
    assert ([q] + s)[1..] == s;
    var closed := LegacyStep(filled, q);
    assert LegacyRun(Init, [q] + w + [q] + s) == LegacyRun(closed, s);
    if w == " " {
      assert closed == Parser(false, q, " ", []);
      var spaced := LegacyStep(Init, ' ');
      assert spaced == Parser(false, '\'', " ", []);
      assert (" " + s)[1..] == s;
      assert LegacyRun(Init, " " + s) == LegacyRun(spaced, s);
      LegacyRespectsEquivalence(closed, spaced, s);
    } else {
      assert closed.arguments == (if w == [] then [] else [w]);
      LegacyTokenizeAfter(closed, s);
    }
  }

  /** On input without quotes or backslashes the two parsers agree state for
      state. */
  lemma {:induction false} RunsAgree(p: Parser, s: string)
    requires forall i :: 0 <= i < |s| ==> !IsQuote(s[i]) && s[i] != '\\'
    ensures LegacyRun(p, s) == Run(p, s)
    decreases |s|
  {
    if s != [] {
      assert LegacyStep(p, s[0]) == Step(p, s[0]);
      RunsAgree(Step(p, s[0]), s[1..]);
    }
  }

  /** The escape-aware parser is a conservative change: without quotes and
      backslashes it tokenizes exactly as the older one. */
  lemma TokenizersAgree(s: string)
    requires forall i :: 0 <= i < |s| ==> !IsQuote(s[i]) && s[i] != '\\'
    ensures LegacyTokenize(s) == Tokenize(s)
  {
    RunsAgree(Init, s);
  }

  /** Where the two parsers part: a quoted single space, which the older
      parser carries into the next token and the newer one drops. */
  lemma QuotedSpaceDiverges()
    ensures LegacyTokenize("' 'a") == [" a"]
    ensures Tokenize("' 'a") == ["a"]
  {
    assert "' 'a" == ['\''] + " " + ['\''] + "a";
    LegacyQuotedToken('\'', " ", "a");
    assert " a" == " " + "a";
    assert LegacyRun(Init, " a") == Parser(false, '\'', " a", []);
    QuotedToken('\'', " ", "a");
    assert Run(Init, "a") == Parser(false, '\'', "a", []);
  }

  /** Where the two parsers part: a backslash, which the older parser keeps
      and the newer one uses to escape the next character. */
  lemma BackslashDiverges()
    ensures LegacyTokenize("a\\ b") == ["a\\", " b"]
    ensures Tokenize("a\\ b") == ["a b"]
  {
    LegacyKeepsBackslash();
    EscapedSpaceJoins();
  }

  /** The older parser keeps the backslash and splits at the space. */
  lemma LegacyKeepsBackslash()
    ensures LegacyTokenize("a\\ b") == ["a\\", " b"]
  {
    var p := LegacyRun(Init, "a\\");
    assert p == Parser(false, '\'', "a\\", []);
    assert "a\\ b" == "a\\" + " b";
    LegacyRunAppend(Init, "a\\", " b");
    assert LegacyRun(p, " b") == Parser(false, '\'', " b", ["a\\"]);
  }

  /** The newer parser drops the backslash and keeps the space it escapes. */
  lemma EscapedSpaceJoins()
    ensures Tokenize("a\\ b") == ["a b"]
  {
    assert "a\\ b" == "a" + (['\\', ' '] + "b");
    WordIsLiteral(Init, "a", ['\\', ' '] + "b");
    assert Init.(buffer := Init.buffer + "a") == Init.(buffer := "a");
    EscapeIsVerbatim(Init.(buffer := "a"), ' ', "b");
    assert Run(Init, "a\\ b") == Run(Init.(buffer := "a "), "b");
    assert Run(Init.(buffer := "a "), "b") == Init.(buffer := "a b");
  }
}
