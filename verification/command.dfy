/**
 Model of the shell's line lexer and command assembler (src/command.rs).

 A line is lexed left to right with one character of lookahead into a flat
 stream of tokens; the assembler then folds the tokens into a command record.
 Both are pure functions of their input.
 */
module Command {
  import opened Wrappers

  /** A lexical token of a command line. */
  datatype Token =
    | Word(text: string)
    | OutputRedirect(append: bool)
    | ErrorRedirect(append: bool)
    | Pipe
    | Background

  /** A redirect target: the file path and whether to append to it. */
  datatype Redirect = Redirect(path: string, append: bool)

  /** The structured command handed to the dispatcher. */
  datatype CommandParts = CommandParts(
    command: string,
    args: seq<string>,
    outputRedirect: Option<Redirect>,
    errorRedirect: Option<Redirect>)

  /** The quote context of the word being read: none, or the open quote mark. */
  datatype Quote = Unquoted | Quoted(mark: char)

  /** Space and tab are the only separators the lexer knows. */
  predicate IsBlank(c: char) {
    c == ' ' || c == '\t'
  }

  predicate IsQuoteMark(c: char) {
    c == '"' || c == '\''
  }

  /** The lexer state: the characters of the line and the read position. */
  datatype Lexer = Lexer(chars: string, position: nat) {

    /** The character at the read position, if any. */
    function Peek(): (r: Option<char>)
      ensures r.Some? <==> position < |chars|
      ensures r.Some? ==> r.value == chars[position]
    {
      if position < |chars| then Some(chars[position]) else None
    }

    /** Consumes the character Peek would show; at end of input nothing moves. */
    function Advance(): (r: (Option<char>, Lexer))
      ensures r.0 == Peek()
      ensures r.1.chars == chars
      ensures r.1.position == if r.0.Some? then position + 1 else position
    {
      if position < |chars| then (Some(chars[position]), Lexer(chars, position + 1))
      else (None, this)
    }
  }

  /** Prepends text to the word of a ReadWord result. */
  function Push(s: string, r: (string, Lexer)): (string, Lexer) {
    (s + r.0, r.1)
  }

  /**
   Reads one word starting in quote context q. The word ends only at a blank
   met outside quotes or at end of input; quote marks open and close quotes and
   are themselves dropped, and backslashes escape according to the context.
   */
  function ReadWord(lx: Lexer, q: Quote): (r: (string, Lexer))
    requires lx.position <= |lx.chars|
    ensures r.1.chars == lx.chars
    ensures lx.position <= r.1.position <= |lx.chars|
    ensures r.1.position < |lx.chars| ==> IsBlank(lx.chars[r.1.position])
    ensures (q == Unquoted && lx.position < |lx.chars| && !IsBlank(lx.chars[lx.position]))
            ==> lx.position < r.1.position
    ensures |r.0| <= r.1.position - lx.position
    decreases |lx.chars| - lx.position
  {
    match lx.Peek()
    case None => ("", lx)
    case Some(ch) =>
      var lx1 := lx.Advance().1;
      if IsQuoteMark(ch) then
        match q
        case Unquoted => ReadWord(lx1, Quoted(ch))
        case Quoted(mark) =>
          if mark == ch then ReadWord(lx1, Unquoted) else Push([ch], ReadWord(lx1, q))
      else if ch == '\\' then
        var (next, lx2) := lx1.Advance();
        match q
        case Unquoted =>
          (match next
           case None => ReadWord(lx2, q)
           case Some(c) => Push([c], ReadWord(lx2, q)))
        case Quoted(mark) =>
          (match next
           case None => Push(['\\'], ReadWord(lx2, q))
           case Some(c) =>
             if mark == '"' && (c == '"' || c == '\\') then Push([c], ReadWord(lx2, q))
             else Push(['\\', c], ReadWord(lx2, q)))
      else if IsBlank(ch) && q == Unquoted then
        ("", lx)
      else
        Push([ch], ReadWord(lx1, q))
  }

  /** After a `>` has been consumed: a second `>` selects append mode. */
  function ConsumeAppend(lx: Lexer): (r: (bool, Lexer))
    requires lx.position <= |lx.chars|
    ensures r.1.chars == lx.chars && r.1.position <= |lx.chars|
    ensures r.0 <==> lx.Peek() == Some('>')
    ensures r.1.position == if r.0 then lx.position + 1 else lx.position
  {
    if lx.Peek() == Some('>') then (true, lx.Advance().1) else (false, lx)
  }

  /** Lexes the rest of the line into tokens. */
  function Tokenize(lx: Lexer): (r: seq<Token>)
    requires lx.position <= |lx.chars|
    ensures |r| <= |lx.chars| - lx.position
    ensures forall k :: 0 <= k < |r| && r[k].Word? ==> r[k].text != ""
    decreases |lx.chars| - lx.position
  {
    match lx.Peek()
    case None => []
    case Some(ch) =>
      var lx1 := lx.Advance().1;
      if IsBlank(ch) then
        Tokenize(lx1)
      else if ch == '>' then
        var (append, lx2) := ConsumeAppend(lx1);
        [OutputRedirect(append)] + Tokenize(lx2)
      else if ch == '1' then
        if lx1.Peek() == Some('>') then
          var (append, lx2) := ConsumeAppend(lx1.Advance().1);
          [OutputRedirect(append)] + Tokenize(lx2)
        else
          [Word("1")] + Tokenize(lx1)
      else if ch == '2' then
        if lx1.Peek() == Some('>') then
          var (append, lx2) := ConsumeAppend(lx1.Advance().1);
          [ErrorRedirect(append)] + Tokenize(lx2)
        else
          [Word("2")] + Tokenize(lx1)
      else if ch == '|' then
        [Pipe] + Tokenize(lx1)
      else if ch == '&' then
        [Background] + Tokenize(lx1)
      else
        var (word, lx2) := ReadWord(lx, Unquoted);
        (if word == "" then [] else [Word(word)]) + Tokenize(lx2)
  }

  /** Lexes a whole line, as Lexer::new followed by tokenize. */
  function TokenizeLine(line: string): (r: seq<Token>)
    ensures |r| <= |line|
    ensures forall k :: 0 <= k < |r| && r[k].Word? ==> r[k].text != ""
  {
    Tokenize(Lexer(line, 0))
  }

  const EmptyCommand := CommandParts("", [], None, None)

  /**
   Folds tokens into acc, left to right: the first word becomes the command
   and later words are arguments; a redirect consumes the next token whatever
   it is, and records it as the target only when it is a word; pipe and
   background tokens are ignored.
   */
  function Assemble(ts: seq<Token>, acc: CommandParts): CommandParts
    decreases |ts|
  {
    if ts == [] then acc
    else
      var rest := ts[1..];
      match ts[0]
      case Word(w) =>
        if acc.command == "" then Assemble(rest, acc.(command := w))
        else Assemble(rest, acc.(args := acc.args + [w]))
      case OutputRedirect(append) =>
        if rest != [] && rest[0].Word? then
          Assemble(rest[1..], acc.(outputRedirect := Some(Redirect(rest[0].text, append))))
        else Assemble(if rest == [] then rest else rest[1..], acc)
      case ErrorRedirect(append) =>
        if rest != [] && rest[0].Word? then
          Assemble(rest[1..], acc.(errorRedirect := Some(Redirect(rest[0].text, append))))
        else Assemble(if rest == [] then rest else rest[1..], acc)
      case _ => Assemble(rest, acc)
  }

  /** Parses one input line into its command record. */
  function Parse(line: string): CommandParts {
    Assemble(TokenizeLine(line), EmptyCommand)
  }
}
