/**
 Properties of the lexer and assembler of module Command: how words are read
 in each quote context, how operators are recognised, and round trips from a
 canonical spelling of tokens and commands back through the lexer and parser.
 */
module CommandProps {
  import opened Wrappers
  import opened Command

  /** A character read literally, with no special meaning, in context q. */
  predicate Literal(c: char, q: Quote) {
    c != '\\' &&
    match q
    case Unquoted => !IsBlank(c) && !IsQuoteMark(c)
    case Quoted(m) => c != m
  }

  /** Canonical unquoted spelling of a word: every character escaped by a backslash. */
  function EscapeAll(w: string): (r: string)
    ensures |r| == 2 * |w|
  {
    if w == [] then [] else ['\\', w[0]] + EscapeAll(w[1..])
  }

  /** Spelling of a word inside double quotes: only `"` and `\` need a backslash. */
  function EscapeDouble(w: string): string {
    if w == [] then []
    else (if w[0] == '"' || w[0] == '\\' then ['\\', w[0]] else [w[0]]) + EscapeDouble(w[1..])
  }

  /** One step of ReadWord over a literal character. */
  lemma StepLiteral(s: string, i: nat, q: Quote)
    requires i < |s| && Literal(s[i], q)
    ensures ReadWord(Lexer(s, i), q) == Push([s[i]], ReadWord(Lexer(s, i + 1), q))
  {
    assert Lexer(s, i).Peek() == Some(s[i]);
    assert Lexer(s, i).Advance().1 == Lexer(s, i + 1);
  }

  /** One step of ReadWord over a backslash and the character after it. */
  lemma StepBackslash(s: string, i: nat, q: Quote)
    requires i + 1 < |s| && s[i] == '\\'
    ensures ReadWord(Lexer(s, i), q) == Push(
              if q == Unquoted || (q.mark == '"' && (s[i + 1] == '"' || s[i + 1] == '\\'))
              then [s[i + 1]] else ['\\', s[i + 1]],
              ReadWord(Lexer(s, i + 2), q))
  {
    assert Lexer(s, i).Peek() == Some(s[i]);
    assert Lexer(s, i).Advance().1 == Lexer(s, i + 1);
    assert Lexer(s, i + 1).Advance() == (Some(s[i + 1]), Lexer(s, i + 2));
  }

  /** Pushing two pieces in turn pushes their concatenation. */
  lemma PushPush(a: string, b: string, r: (string, Lexer))
    ensures Push(a, Push(b, r)) == Push(a + b, r)
  {
    assert a + (b + r.0) == (a + b) + r.0;
  }

  lemma PushEmpty(r: (string, Lexer))
    ensures Push("", r) == r
  {
    assert "" + r.0 == r.0;
  }

  /** A run of literal characters, ending at e, is copied into the word unchanged. */
  lemma {:induction false} LiteralRun(s: string, i: nat, e: nat, w: string, q: Quote)
    requires e == i + |w| && e <= |s| && s[i..e] == w
    requires forall k :: 0 <= k < |w| ==> Literal(w[k], q)
    ensures ReadWord(Lexer(s, i), q) == Push(w, ReadWord(Lexer(s, e), q))
    decreases |w|
  {
    if w != [] {
      assert s[i] == w[0] by { assert s[i..e][0] == s[i]; }
      assert s[i + 1..e] == w[1..] by { assert s[i + 1..e] == s[i..e][1..]; }
      StepLiteral(s, i, q);
      LiteralRun(s, i + 1, e, w[1..], q);
      PushPush([w[0]], w[1..], ReadWord(Lexer(s, e), q));
      assert [w[0]] + w[1..] == w;
    } else {
      PushEmpty(ReadWord(Lexer(s, i), q));
    }
  }

  /** The canonical unquoted spelling, ending at e, reads back as the word itself. */
  lemma {:induction false} EscapedRun(s: string, i: nat, e: nat, w: string)
    requires e == i + 2 * |w| && e <= |s| && s[i..e] == EscapeAll(w)
    ensures ReadWord(Lexer(s, i), Unquoted) == Push(w, ReadWord(Lexer(s, e), Unquoted))
    decreases |w|
  {
    if w != [] {
      assert s[i] == '\\' && s[i + 1] == w[0] by {
        assert s[i..e][0] == s[i] && s[i..e][1] == s[i + 1];
      }
      assert s[i + 2..e] == EscapeAll(w[1..]) by {
        assert s[i + 2..e] == s[i..e][2..];
      }
      StepBackslash(s, i, Unquoted);
      EscapedRun(s, i + 2, e, w[1..]);
      PushPush([w[0]], w[1..], ReadWord(Lexer(s, e), Unquoted));
      assert [w[0]] + w[1..] == w;
    } else {
      PushEmpty(ReadWord(Lexer(s, i), Unquoted));
    }
  }

  /** The double-quoted spelling, ending at e, reads back as the word itself. */
  lemma {:induction false} DoubleQuotedRun(s: string, i: nat, e: nat, w: string)
    requires e == i + |EscapeDouble(w)| && e <= |s| && s[i..e] == EscapeDouble(w)
    ensures ReadWord(Lexer(s, i), Quoted('"')) == Push(w, ReadWord(Lexer(s, e), Quoted('"')))
    decreases |w|
  {
    if w == [] {
      PushEmpty(ReadWord(Lexer(s, i), Quoted('"')));
    } else {
      var tail := EscapeDouble(w[1..]);
      var special := w[0] == '"' || w[0] == '\\';
      var n := if special then 2 else 1;
      assert EscapeDouble(w) == (if special then ['\\', w[0]] else [w[0]]) + tail;
      assert s[i + n..e] == tail by {
        assert s[i + n..e] == s[i..e][n..];
      }
      assert s[i] == EscapeDouble(w)[0] by { assert s[i] == s[i..e][0]; }
      if special {
        assert s[i + 1] == w[0] by { assert s[i + 1] == s[i..e][1]; }
        StepBackslash(s, i, Quoted('"'));
      } else {
        StepLiteral(s, i, Quoted('"'));
      }
      var r := ReadWord(Lexer(s, e), Quoted('"'));
      DoubleQuotedRun(s, i + n, e, w[1..]);
      PushPush([w[0]], w[1..], r);
      assert [w[0]] + w[1..] == w;
    }
  }

  /** A word ends at a blank outside quotes or at end of input. */
  lemma StepWordEnd(s: string, i: nat)
    requires i <= |s| && (i == |s| || IsBlank(s[i]))
    ensures ReadWord(Lexer(s, i), Unquoted) == ("", Lexer(s, i))
  {
    if i < |s| {
      assert Lexer(s, i).Peek() == Some(s[i]);
    }
  }

  /** A quote mark outside quotes opens a quote of that kind and is dropped. */
  lemma StepOpenQuote(s: string, i: nat)
    requires i < |s| && IsQuoteMark(s[i])
    ensures ReadWord(Lexer(s, i), Unquoted) == ReadWord(Lexer(s, i + 1), Quoted(s[i]))
  {
    assert Lexer(s, i).Peek() == Some(s[i]);
    assert Lexer(s, i).Advance().1 == Lexer(s, i + 1);
  }

  /** The quote mark that opened a quote closes it and is dropped. */
  lemma StepCloseQuote(s: string, i: nat)
    requires i < |s| && IsQuoteMark(s[i])
    ensures ReadWord(Lexer(s, i), Quoted(s[i])) == ReadWord(Lexer(s, i + 1), Unquoted)
  {
    assert Lexer(s, i).Peek() == Some(s[i]);
    assert Lexer(s, i).Advance().1 == Lexer(s, i + 1);
  }

  /** A character that makes the lexer start reading a word. */
  predicate StartsWord(c: char) {
    !IsBlank(c) && c != '>' && c != '1' && c != '2' && c != '|' && c != '&'
  }

  /** The token list contributed by a word that was read: nothing when it is empty. */
  function WordTokens(w: string): seq<Token> {
    if w == "" then [] else [Word(w)]
  }

  lemma StepTokenizeWord(s: string, i: nat)
    requires i < |s| && StartsWord(s[i])
    ensures var r := ReadWord(Lexer(s, i), Unquoted);
            Tokenize(Lexer(s, i)) == WordTokens(r.0) + Tokenize(r.1)
  {
    assert Lexer(s, i).Peek() == Some(s[i]);
  }

  lemma StepTokenizeBlank(s: string, i: nat)
    requires i < |s| && IsBlank(s[i])
    ensures Tokenize(Lexer(s, i)) == Tokenize(Lexer(s, i + 1))
  {
    assert Lexer(s, i).Peek() == Some(s[i]);
    assert Lexer(s, i).Advance().1 == Lexer(s, i + 1);
  }

  /** Spelling of a redirect operator, without the optional leading `1`. */
  function Operator(t: Token): string
    requires t.OutputRedirect? || t.ErrorRedirect?
  {
    (if t.ErrorRedirect? then "2" else "") + (if t.append then ">>" else ">")
  }

  lemma StepConsumeAppend(s: string, j: nat)
    requires j <= |s|
    ensures var more := j < |s| && s[j] == '>';
            ConsumeAppend(Lexer(s, j)) == (more, Lexer(s, if more then j + 1 else j))
  {
    if j < |s| {
      assert Lexer(s, j).Peek() == Some(s[j]);
    }
  }

  lemma StepTokenizeGreater(s: string, i: nat)
    requires i < |s| && s[i] == '>'
    ensures var c := ConsumeAppend(Lexer(s, i + 1));
            Tokenize(Lexer(s, i)) == [OutputRedirect(c.0)] + Tokenize(c.1)
  {
    assert Lexer(s, i).Peek() == Some(s[i]);
    assert Lexer(s, i).Advance().1 == Lexer(s, i + 1);
  }

  lemma StepTokenizeDigitRedirect(s: string, i: nat)
    requires i + 1 < |s| && (s[i] == '1' || s[i] == '2') && s[i + 1] == '>'
    ensures var c := ConsumeAppend(Lexer(s, i + 2));
            Tokenize(Lexer(s, i))
            == [if s[i] == '1' then OutputRedirect(c.0) else ErrorRedirect(c.0)] + Tokenize(c.1)
  {
    assert Lexer(s, i).Peek() == Some(s[i]);
    assert Lexer(s, i).Advance().1 == Lexer(s, i + 1);
    assert Lexer(s, i + 1).Peek() == Some('>');
    assert Lexer(s, i + 1).Advance().1 == Lexer(s, i + 2);
  }

  /** The spelling of a redirect operator, with or without a leading `1`. */
  function RedirectSpelling(t: Token, explicitOne: bool): string
    requires t.OutputRedirect? || t.ErrorRedirect?
  {
    (if explicitOne then "1" else "") + Operator(t)
  }

  /** The characters of a spelled redirect operator ending at e. */
  lemma RedirectChars(s: string, i: nat, e: nat, t: Token, explicitOne: bool)
    requires t.OutputRedirect? || (t.ErrorRedirect? && !explicitOne)
    requires e == i + |RedirectSpelling(t, explicitOne)| && e <= |s|
    requires s[i..e] == RedirectSpelling(t, explicitOne)
    ensures var j := if t.append then e - 1 else e;
            && i < j <= e
            && s[j - 1] == '>'
            && (t.append ==> s[j] == '>')
            && (explicitOne ==> j == i + 2 && s[i] == '1')
            && (t.ErrorRedirect? ==> j == i + 2 && s[i] == '2')
            && (!explicitOne && t.OutputRedirect? ==> j == i + 1)
  {
    var op := RedirectSpelling(t, explicitOne);
    var lead := if explicitOne then "1" else if t.ErrorRedirect? then "2" else "";
    var tail := if t.append then ">>" else ">";
    assert op == lead + tail;
    forall k | 0 <= k < |op| ensures s[i + k] == op[k] {
      assert s[i..e][k] == s[i + k];
    }
    assert op[|lead|] == tail[0] == '>';
    if t.append {
      assert op[|lead| + 1] == tail[1] == '>';
    }
    if lead != "" {
      assert op[0] == lead[0];
    }
  }

  /**
   Redirect operators: `>` and `>>` give OutputRedirect, `2>` and `2>>` give
   ErrorRedirect, the doubled form in append mode; a leading `1` before `>`
   or `>>` is accepted and changes nothing. A single `>` followed by another
   `>` would be the append form; after an append form, anything may follow.
   */
  lemma RedirectOperatorAt(s: string, i: nat, e: nat, t: Token, explicitOne: bool)
    requires t.OutputRedirect? || (t.ErrorRedirect? && !explicitOne)
    requires e == i + |RedirectSpelling(t, explicitOne)| && e <= |s|
    requires s[i..e] == RedirectSpelling(t, explicitOne) && (t.append || e == |s| || s[e] != '>')
    ensures Tokenize(Lexer(s, i)) == [t] + Tokenize(Lexer(s, e))
  {
    var j := if t.append then e - 1 else e;
    RedirectChars(s, i, e, t, explicitOne);
    StepConsumeAppend(s, j);
    if explicitOne || t.ErrorRedirect? {
      StepTokenizeDigitRedirect(s, i);
    } else {
      StepTokenizeGreater(s, i);
    }
  }

  /**
   A `1` or `2` at the start of a token that is not followed by `>` is a word of
   its own, whatever follows it.
   */
  lemma DigitWordAt(s: string, i: nat)
    requires i < |s| && (s[i] == '1' || s[i] == '2')
    requires i + 1 == |s| || s[i + 1] != '>'
    ensures Tokenize(Lexer(s, i)) == [Word([s[i]])] + Tokenize(Lexer(s, i + 1))
  {
    assert Lexer(s, i).Peek() == Some(s[i]);
    assert Lexer(s, i).Advance().1 == Lexer(s, i + 1);
    assert Lexer(s, i + 1).Peek() != Some('>');
  }

  lemma StepTokenizeSymbol(s: string, i: nat)
    requires i < |s| && (s[i] == '|' || s[i] == '&')
    ensures Tokenize(Lexer(s, i)) == [if s[i] == '|' then Pipe else Background] + Tokenize(Lexer(s, i + 1))
  {
    assert Lexer(s, i).Peek() == Some(s[i]);
    assert Lexer(s, i).Advance().1 == Lexer(s, i + 1);
  }

  /** At end of input a word is over, whatever quote is still open. */
  lemma StepEnd(s: string, q: Quote)
    ensures ReadWord(Lexer(s, |s|), q) == ("", Lexer(s, |s|))
    ensures Tokenize(Lexer(s, |s|)) == []
  {
  }

  /** A backslash that is the last character of the line. */
  lemma StepBackslashAtEnd(s: string, q: Quote)
    requires |s| > 0 && s[|s| - 1] == '\\'
    ensures ReadWord(Lexer(s, |s| - 1), q) == (if q == Unquoted then "" else "\\", Lexer(s, |s|))
  {
    var i := |s| - 1;
    assert Lexer(s, i).Peek() == Some(s[i]);
    assert Lexer(s, i).Advance().1 == Lexer(s, i + 1);
    assert Lexer(s, i + 1).Advance() == (None, Lexer(s, |s|));
    StepEnd(s, q);
    assert ['\\'] + "" == "\\";
  }

  /** Canonical spelling of a token, readable back by the lexer. */
  function RenderToken(t: Token): string {
    match t
    case Word(w) => EscapeAll(w)
    case OutputRedirect(_) => Operator(t)
    case ErrorRedirect(_) => Operator(t)
    case Pipe => "|"
    case Background => "&"
  }

  /** Canonical spelling of a token sequence: each token followed by one space. */
  function Render(ts: seq<Token>): string {
    if ts == [] then "" else RenderToken(ts[0]) + " " + Render(ts[1..])
  }

  /** The lexer never produces an empty word. */
  predicate NonEmptyWords(ts: seq<Token>) {
    forall k :: 0 <= k < |ts| && ts[k].Word? ==> ts[k].text != ""
  }

  /** A word whose reading reaches a blank or the end of input after text w. */
  lemma ReadWordEndsAt(s: string, i: nat, e: nat, w: string)
    requires i <= e <= |s|
    requires ReadWord(Lexer(s, i), Unquoted) == Push(w, ReadWord(Lexer(s, e), Unquoted))
    requires e == |s| || IsBlank(s[e])
    ensures ReadWord(Lexer(s, i), Unquoted) == (w, Lexer(s, e))
  {
    StepWordEnd(s, e);
    assert w + "" == w;
  }

  /** A word read up to a blank at e becomes one token. */
  lemma TokenizeWordUpTo(s: string, i: nat, e: nat, w: string)
    requires w != "" && i < e < |s| && s[i] == '\\' && s[e] == ' '
    requires ReadWord(Lexer(s, i), Unquoted) == Push(w, ReadWord(Lexer(s, e), Unquoted))
    ensures Tokenize(Lexer(s, i)) == [Word(w)] + Tokenize(Lexer(s, e))
  {
    ReadWordEndsAt(s, i, e, w);
    StepTokenizeWord(s, i);
  }

  /** An escaped word followed by a blank lexes to one word token. */
  lemma TokenizeEscapedAt(s: string, i: nat, w: string, e: nat)
    requires e == i + 2 * |w|
    requires w != "" && e < |s| && s[i..e] == EscapeAll(w) && s[e] == ' '
    ensures Tokenize(Lexer(s, i)) == [Word(w)] + Tokenize(Lexer(s, e))
  {
    assert s[i] == '\\' by { assert s[i] == s[i..e][0]; }
    EscapedRun(s, i, e, w);
    TokenizeWordUpTo(s, i, e, w);
  }

  /** One canonically spelled token ending at k, followed by a blank, lexes back to itself. */
  lemma TokenizePieceAt(s: string, i: nat, k: nat, t: Token)
    requires t.Word? ==> t.text != ""
    requires k == i + |RenderToken(t)| && k < |s| && s[i..k] == RenderToken(t) && s[k] == ' '
    ensures Tokenize(Lexer(s, i)) == [t] + Tokenize(Lexer(s, k))
  {
    match t
    case Word(w) =>
      TokenizeEscapedAt(s, i, w, k);
    case OutputRedirect(_) =>
      RedirectOperatorAt(s, i, k, t, false);
    case ErrorRedirect(_) =>
      RedirectOperatorAt(s, i, k, t, false);
    case Pipe =>
      assert s[i] == '|' by { assert s[i] == s[i..k][0]; }
      StepTokenizeSymbol(s, i);
    case Background =>
      assert s[i] == '&' by { assert s[i] == s[i..k][0]; }
      StepTokenizeSymbol(s, i);
  }

  /** The first token's spelling, its blank, and the spelling of the rest. */
  lemma RenderedSplit(s: string, i: nat, k: nat, ts: seq<Token>)
    requires ts != [] && i <= |s| && s[i..] == Render(ts)
    requires k == i + |RenderToken(ts[0])|
    ensures k < |s| && s[i..k] == RenderToken(ts[0]) && s[k] == ' ' && s[k + 1..] == Render(ts[1..])
  {
    var piece := RenderToken(ts[0]);
    assert Render(ts) == piece + " " + Render(ts[1..]);
    assert s[i..k] == piece by { assert s[i..k] == s[i..][..|piece|]; }
    assert s[k] == ' ' by { assert s[k] == s[i..][|piece|]; }
    assert s[k + 1..] == Render(ts[1..]) by { assert s[k + 1..] == s[i..][|piece| + 1..]; }
  }

  lemma {:induction false} TokenizeRenderedAt(s: string, i: nat, ts: seq<Token>)
    requires i <= |s| && s[i..] == Render(ts) && NonEmptyWords(ts)
    ensures Tokenize(Lexer(s, i)) == ts
    decreases |ts|
  {
    if ts == [] {
      assert i == |s|;
      StepEnd(s, Unquoted);
    } else {
      var k := i + |RenderToken(ts[0])|;
      RenderedSplit(s, i, k, ts);
      TokenizePieceAt(s, i, k, ts[0]);
      StepTokenizeBlank(s, k);
      TokenizeRenderedAt(s, k + 1, ts[1..]);
      assert ts == [ts[0]] + ts[1..];
    }
  }

  /**
   Round trip of the lexer: every token sequence without empty words is what
   the lexer reads back from its canonical spelling. In particular an
   unquoted backslash keeps the next character verbatim, whatever it is.
   */
  lemma TokenizeRender(ts: seq<Token>)
    requires NonEmptyWords(ts)
    ensures TokenizeLine(Render(ts)) == ts
  {
    TokenizeRenderedAt(Render(ts), 0, ts);
  }

  /**
   Quoted text: the quote marks are dropped, blanks and the other kind of quote
   inside are kept, and a quote left open at end of line keeps everything after
   it in the word.
   */
  lemma QuotedLine(m: char, w: string, closed: bool)
    requires IsQuoteMark(m) && w != ""
    requires forall k :: 0 <= k < |w| ==> Literal(w[k], Quoted(m))
    ensures TokenizeLine([m] + w + (if closed then [m] else [])) == [Word(w)]
  {
    var s := [m] + w + (if closed then [m] else []);
    assert s[1..1 + |w|] == w;
    StepOpenQuote(s, 0);
    LiteralRun(s, 1, 1 + |w|, w, Quoted(m));
    if closed {
      StepCloseQuote(s, 1 + |w|);
      StepEnd(s, Unquoted);
    } else {
      StepEnd(s, Quoted(m));
    }
    assert w + "" == w;
    assert ReadWord(Lexer(s, 0), Unquoted) == (w, Lexer(s, |s|));
    StepTokenizeWord(s, 0);
    StepEnd(s, Unquoted);
  }

  /** Round trip through double quotes: only `"` and `\` need a backslash there. */
  lemma DoubleQuotedLine(w: string)
    requires w != ""
    ensures TokenizeLine(['"'] + EscapeDouble(w) + ['"']) == [Word(w)]
  {
    var s := ['"'] + EscapeDouble(w) + ['"'];
    assert s[1..1 + |EscapeDouble(w)|] == EscapeDouble(w);
    StepOpenQuote(s, 0);
    DoubleQuotedRun(s, 1, 1 + |EscapeDouble(w)|, w);
    StepCloseQuote(s, 1 + |EscapeDouble(w)|);
    StepEnd(s, Unquoted);
    assert w + "" == w;
    assert ReadWord(Lexer(s, 0), Unquoted) == (w, Lexer(s, |s|));
    StepTokenizeWord(s, 0);
  }

  /**
   A backslash inside quotes: inside double quotes `\"` and `\\` give the
   second character alone; every other pair, and every pair inside single
   quotes, is kept whole. The escaped character never closes the quote.
   */
  lemma BackslashInQuotes(m: char, x: char)
    requires IsQuoteMark(m)
    ensures TokenizeLine([m, '\\', x, m])
            == [Word(if m == '"' && (x == '"' || x == '\\') then [x] else ['\\', x])]
  {
    var s := [m, '\\', x, m];
    var kept := if m == '"' && (x == '"' || x == '\\') then [x] else ['\\', x];
    StepOpenQuote(s, 0);
    StepBackslash(s, 1, Quoted(m));
    StepCloseQuote(s, 3);
    StepEnd(s, Unquoted);
    assert kept + "" == kept;
    assert ReadWord(Lexer(s, 0), Unquoted) == (kept, Lexer(s, 4));
    StepTokenizeWord(s, 0);
  }

  /** An empty quoted word yields no token at all. */
  lemma EmptyQuotes(m: char)
    requires IsQuoteMark(m)
    ensures TokenizeLine([m, m]) == []
  {
    var s := [m, m];
    StepOpenQuote(s, 0);
    StepCloseQuote(s, 1);
    StepEnd(s, Unquoted);
    StepTokenizeWord(s, 0);
  }

  /**
   An unquoted word of literal characters is one token: `>`, `|`, `&` and
   digits after its first character do not end it. A backslash at the very end
   of the line adds nothing.
   */
  lemma PlainLine(w: string, trailingBackslash: bool)
    requires w != "" && StartsWord(w[0])
    requires forall k :: 0 <= k < |w| ==> Literal(w[k], Unquoted)
    ensures TokenizeLine(w + (if trailingBackslash then ['\\'] else [])) == [Word(w)]
  {
    var s := w + (if trailingBackslash then ['\\'] else []);
    assert s[0..|w|] == w;
    LiteralRun(s, 0, |w|, w, Unquoted);
    if trailingBackslash {
      StepBackslashAtEnd(s, Unquoted);
    } else {
      StepEnd(s, Unquoted);
    }
    assert w + "" == w;
    assert ReadWord(Lexer(s, 0), Unquoted) == (w, Lexer(s, |s|));
    StepTokenizeWord(s, 0);
    StepEnd(s, Unquoted);
  }

  /** `12` is two words: a leading `1` or `2` not followed by `>` stands alone. */
  lemma TwelveIsTwoWords()
    ensures TokenizeLine("12") == [Word("1"), Word("2")]
  {
    var s := "12";
    DigitWordAt(s, 0);
    DigitWordAt(s, 1);
    StepEnd(s, Unquoted);
  }

  /** `1a` is the word `1` followed by the word `a`. */
  lemma OneThenLetter()
    ensures TokenizeLine("1a") == [Word("1"), Word("a")]
  {
    var s := "1a";
    DigitWordAt(s, 0);
    assert s[1..2] == "a";
    LiteralRun(s, 1, 2, "a", Unquoted);
    StepEnd(s, Unquoted);
    assert "a" + "" == "a";
    StepTokenizeWord(s, 1);
  }

  /** Operator characters inside a word are kept: `hi>out` is one word. */
  lemma OperatorInsideWord()
    ensures TokenizeLine("hi>out") == [Word("hi>out")]
  {
    PlainLine("hi>out", false);
    assert "hi>out" + [] == "hi>out";
  }

  /** `2>>>x`: an append operator may be followed by `>`, which starts a new operator. */
  lemma AppendThenGreater()
    ensures TokenizeLine("2>>>x") == [ErrorRedirect(true), OutputRedirect(false), Word("x")]
  {
    var s := "2>>>x";
    assert s[0..3] == RedirectSpelling(ErrorRedirect(true), false);
    RedirectOperatorAt(s, 0, 3, ErrorRedirect(true), false);
    assert s[3..4] == RedirectSpelling(OutputRedirect(false), false);
    RedirectOperatorAt(s, 3, 4, OutputRedirect(false), false);
    assert s[4..5] == "x";
    LiteralRun(s, 4, 5, "x", Unquoted);
    StepEnd(s, Unquoted);
    assert "x" + "" == "x";
    StepTokenizeWord(s, 4);
  }
}
