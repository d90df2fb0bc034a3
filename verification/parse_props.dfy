/**
 Properties of the command assembler (Command.Assemble and Command.Parse): an
 independent reading of the token stream as items, the record it yields, and
 a round trip from a canonical command line.
 */
module ParseProps {
  import opened Wrappers
  import opened Command
  import CommandProps

  /**
   How the assembler groups the token stream: a word standing on its own, a
   redirect together with the target word it consumed (if the consumed token
   was a word), or an ignored pipe or background token.
   */
  datatype Item =
    | Operand(text: string)
    | Redirection(toStderr: bool, append: bool, target: Option<string>)
    | Inert

  /** The target a redirect takes from the token after it. */
  function TargetOf(rest: seq<Token>): Option<string> {
    if rest != [] && rest[0].Word? then Some(rest[0].text) else None
  }

  /** The stream after the token a redirect consumed, if there was one. */
  function AfterTarget(rest: seq<Token>): seq<Token> {
    if rest == [] then [] else rest[1..]
  }

  function Items(ts: seq<Token>): seq<Item>
    decreases |ts|
  {
    if ts == [] then []
    else
      match ts[0]
      case Word(w) => [Operand(w)] + Items(ts[1..])
      case OutputRedirect(a) => [Redirection(false, a, TargetOf(ts[1..]))] + Items(AfterTarget(ts[1..]))
      case ErrorRedirect(a) => [Redirection(true, a, TargetOf(ts[1..]))] + Items(AfterTarget(ts[1..]))
      case _ => [Inert] + Items(ts[1..])
  }

  /** The words that stand on their own, in order. */
  function Operands(items: seq<Item>): seq<string> {
    if items == [] then []
    else (if items[0].Operand? then [items[0].text] else []) + Operands(items[1..])
  }

  /** The words consumed as redirect targets, in order. */
  function Targets(items: seq<Item>): seq<string> {
    if items == [] then []
    else (if items[0].Redirection? && items[0].target.Some? then [items[0].target.value] else [])
         + Targets(items[1..])
  }

  /** The words of a token stream, in order. */
  function WordsOf(ts: seq<Token>): seq<string> {
    if ts == [] then [] else (if ts[0].Word? then [ts[0].text] else []) + WordsOf(ts[1..])
  }

  /** The last redirect of one stream that has a target: a later one overrides an earlier one. */
  function LastTarget(items: seq<Item>, toStderr: bool): Option<Redirect> {
    if items == [] then None
    else
      match LastTarget(items[1..], toStderr)
      case Some(r) => Some(r)
      case None =>
        var it := items[0];
        if it.Redirection? && it.toStderr == toStderr && it.target.Some?
        then Some(Redirect(it.target.value, it.append))
        else None
  }

  function Head(ws: seq<string>): string {
    if ws == [] then "" else ws[0]
  }

  function Tail(ws: seq<string>): seq<string> {
    if ws == [] then [] else ws[1..]
  }

  /** LastTarget with a fallback for when the items record nothing. */
  function LastTargetOr(fallback: Option<Redirect>, items: seq<Item>, toStderr: bool): Option<Redirect> {
    if LastTarget(items, toStderr).Some? then LastTarget(items, toStderr) else fallback
  }

  /** A redirect's item and the words it takes from the stream after it. */
  lemma RedirectStep(ts: seq<Token>)
    requires ts != [] && (ts[0].OutputRedirect? || ts[0].ErrorRedirect?)
    ensures Items(ts) == [Redirection(ts[0].ErrorRedirect?, ts[0].append, TargetOf(ts[1..]))]
                         + Items(AfterTarget(ts[1..]))
    ensures WordsOf(ts) == (if TargetOf(ts[1..]).Some? then [TargetOf(ts[1..]).value] else [])
                           + WordsOf(AfterTarget(ts[1..]))
  {
    var rest := ts[1..];
    if rest != [] {
      assert WordsOf(rest) == (if rest[0].Word? then [rest[0].text] else []) + WordsOf(rest[1..]);
    }
  }

  /**
   Every word of the stream is either an operand or a redirect target, exactly
   once: a redirect target is never also an argument.
   */
  lemma {:induction false} WordsPartition(ts: seq<Token>)
    ensures multiset(Operands(Items(ts))) + multiset(Targets(Items(ts))) == multiset(WordsOf(ts))
    decreases |ts|
  {
    if ts != [] {
      if ts[0].OutputRedirect? || ts[0].ErrorRedirect? {
        WordsPartition(AfterTarget(ts[1..]));
        PartitionRedirectStep(ts);
      } else {
        WordsPartition(ts[1..]);
        PartitionPlainStep(ts);
      }
    }
  }

  lemma ItemsCons(it: Item, items: seq<Item>)
    ensures Operands([it] + items) == (if it.Operand? then [it.text] else []) + Operands(items)
    ensures Targets([it] + items)
            == (if it.Redirection? && it.target.Some? then [it.target.value] else []) + Targets(items)
  {
    assert ([it] + items)[1..] == items;
  }

  lemma PartitionRedirectStep(ts: seq<Token>)
    requires ts != [] && (ts[0].OutputRedirect? || ts[0].ErrorRedirect?)
    requires var after := AfterTarget(ts[1..]);
             multiset(Operands(Items(after))) + multiset(Targets(Items(after))) == multiset(WordsOf(after))
    ensures multiset(Operands(Items(ts))) + multiset(Targets(Items(ts))) == multiset(WordsOf(ts))
  {
    RedirectStep(ts);
    ItemsCons(Redirection(ts[0].ErrorRedirect?, ts[0].append, TargetOf(ts[1..])), Items(AfterTarget(ts[1..])));
  }

  lemma PartitionPlainStep(ts: seq<Token>)
    requires ts != [] && !(ts[0].OutputRedirect? || ts[0].ErrorRedirect?)
    requires multiset(Operands(Items(ts[1..]))) + multiset(Targets(Items(ts[1..]))) == multiset(WordsOf(ts[1..]))
    ensures multiset(Operands(Items(ts))) + multiset(Targets(Items(ts))) == multiset(WordsOf(ts))
  {
    ItemsStep(ts);
    ItemsCons(if ts[0].Word? then Operand(ts[0].text) else Inert, Items(ts[1..]));
  }

  lemma ItemsStep(ts: seq<Token>)
    requires ts != [] && !(ts[0].OutputRedirect? || ts[0].ErrorRedirect?)
    ensures Items(ts) == [if ts[0].Word? then Operand(ts[0].text) else Inert] + Items(ts[1..])
  {
  }

  /** The items of a stream without empty words contain no empty operand. */
  lemma {:induction false} OperandsNonEmpty(ts: seq<Token>)
    requires CommandProps.NonEmptyWords(ts)
    ensures forall k :: 0 <= k < |Operands(Items(ts))| ==> Operands(Items(ts))[k] != ""
    decreases |ts|
  {
    if ts != [] {
      if ts[0].OutputRedirect? || ts[0].ErrorRedirect? {
        RedirectStep(ts);
        var after := AfterTarget(ts[1..]);
        assert CommandProps.NonEmptyWords(after) by {
          forall k | 0 <= k < |after| && after[k].Word? ensures after[k].text != "" {
            assert after[k] == ts[k + 2];
          }
        }
        OperandsNonEmpty(after);
        assert Operands(Items(ts)) == Operands(Items(after));
      } else {
        ItemsStep(ts);
        assert CommandProps.NonEmptyWords(ts[1..]) by {
          forall k | 0 <= k < |ts[1..]| && ts[1..][k].Word? ensures ts[1..][k].text != "" {
            assert ts[1..][k] == ts[k + 1];
          }
        }
        OperandsNonEmpty(ts[1..]);
        assert Operands(Items(ts)) == (if ts[0].Word? then [ts[0].text] else []) + Operands(Items(ts[1..]));
      }
    }
  }

  /** The invariant of Assemble's fold: what it returns from acc, read off the items. */
  ghost predicate ReadsItems(ts: seq<Token>, acc: CommandParts) {
    var items := Items(ts);
    var ops := Operands(items);
    var r := Assemble(ts, acc);
    && r.command == (if acc.command == "" then Head(ops) else acc.command)
    && r.args == (if acc.command == "" then Tail(ops) else acc.args + ops)
    && r.outputRedirect == LastTargetOr(acc.outputRedirect, items, false)
    && r.errorRedirect == LastTargetOr(acc.errorRedirect, items, true)
  }

  lemma NonEmptyWordsSuffix(ts: seq<Token>, n: nat)
    requires n <= |ts| && CommandProps.NonEmptyWords(ts)
    ensures CommandProps.NonEmptyWords(ts[n..])
  {
    forall k | 0 <= k < |ts[n..]| && ts[n..][k].Word? ensures ts[n..][k].text != "" {
      assert ts[n..][k] == ts[k + n];
    }
  }

  /** The accumulator after a redirect token and the token it consumed. */
  function RedirectAcc(ts: seq<Token>, acc: CommandParts): CommandParts
    requires ts != [] && (ts[0].OutputRedirect? || ts[0].ErrorRedirect?)
  {
    var target := TargetOf(ts[1..]);
    if target.None? then acc
    else if ts[0].OutputRedirect? then acc.(outputRedirect := Some(Redirect(target.value, ts[0].append)))
    else acc.(errorRedirect := Some(Redirect(target.value, ts[0].append)))
  }

  lemma AssembleRedirectUnfold(ts: seq<Token>, acc: CommandParts)
    requires ts != [] && (ts[0].OutputRedirect? || ts[0].ErrorRedirect?)
    ensures Assemble(ts, acc) == Assemble(AfterTarget(ts[1..]), RedirectAcc(ts, acc))
  {
  }

  lemma LastTargetCons(it: Item, items: seq<Item>, toStderr: bool)
    ensures LastTarget([it] + items, toStderr)
            == if LastTarget(items, toStderr).Some? then LastTarget(items, toStderr)
               else if it.Redirection? && it.toStderr == toStderr && it.target.Some?
               then Some(Redirect(it.target.value, it.append))
               else None
  {
    assert ([it] + items)[1..] == items;
  }

  /** A redirect step of the fold keeps the invariant. */
  lemma AssembleRedirectStep(ts: seq<Token>, acc: CommandParts)
    requires ts != [] && (ts[0].OutputRedirect? || ts[0].ErrorRedirect?)
    requires acc.command == "" ==> acc.args == []
    requires ReadsItems(AfterTarget(ts[1..]), RedirectAcc(ts, acc))
    ensures ReadsItems(ts, acc)
  {
    var it := Redirection(ts[0].ErrorRedirect?, ts[0].append, TargetOf(ts[1..]));
    var after := AfterTarget(ts[1..]);
    var rest := Items(after);
    var acc' := RedirectAcc(ts, acc);
    var r := Assemble(ts, acc);
    RedirectStep(ts);
    AssembleRedirectUnfold(ts, acc);
    assert Items(ts) == [it] + rest;
    assert r == Assemble(after, acc');
    ItemsCons(it, rest);
    assert Operands(Items(ts)) == Operands(rest);
    LastTargetCons(it, rest, false);
    LastTargetCons(it, rest, true);
    assert r.outputRedirect == LastTargetOr(acc.outputRedirect, Items(ts), false);
    assert r.errorRedirect == LastTargetOr(acc.errorRedirect, Items(ts), true);
  }

  /** A word step of the fold keeps the invariant. */
  lemma AssembleWordStep(ts: seq<Token>, acc: CommandParts)
    requires ts != [] && ts[0].Word? && ts[0].text != ""
    requires acc.command == "" ==> acc.args == []
    requires var acc' :=
               if acc.command == "" then acc.(command := ts[0].text)
               else acc.(args := acc.args + [ts[0].text]);
             ReadsItems(ts[1..], acc')
    ensures ReadsItems(ts, acc)
  {
    var w := ts[0].text;
    var acc' := if acc.command == "" then acc.(command := w) else acc.(args := acc.args + [w]);
    assert Assemble(ts, acc) == Assemble(ts[1..], acc');
    ItemsStep(ts);
    var ops := Operands(Items(ts[1..]));
    assert Operands(Items(ts)) == [w] + ops;
    assert LastTarget(Items(ts), false) == LastTarget(Items(ts[1..]), false);
    assert LastTarget(Items(ts), true) == LastTarget(Items(ts[1..]), true);
    if acc.command == "" {
      assert [] + ops == ops;
    } else {
      assert acc.args + [w] + ops == acc.args + ([w] + ops);
    }
  }

  /** A pipe or background step of the fold keeps the invariant. */
  lemma AssembleInertStep(ts: seq<Token>, acc: CommandParts)
    requires ts != [] && (ts[0].Pipe? || ts[0].Background?)
    requires ReadsItems(ts[1..], acc)
    ensures ReadsItems(ts, acc)
  {
    assert Assemble(ts, acc) == Assemble(ts[1..], acc);
    ItemsStep(ts);
    assert Operands(Items(ts)) == Operands(Items(ts[1..]));
    assert LastTarget(Items(ts), false) == LastTarget(Items(ts[1..]), false);
    assert LastTarget(Items(ts), true) == LastTarget(Items(ts[1..]), true);
  }

  /**
   What Assemble adds to the record acc, read off the items of the stream: the
   operands fill the command and then the arguments in order, and each stream
   keeps its last redirect that had a target word.
   */
  lemma {:induction false} AssembleReadsItems(ts: seq<Token>, acc: CommandParts)
    requires CommandProps.NonEmptyWords(ts)
    requires acc.command == "" ==> acc.args == []
    ensures ReadsItems(ts, acc)
    decreases |ts|
  {
    if ts != [] {
      if ts[0].OutputRedirect? || ts[0].ErrorRedirect? {
        var target := TargetOf(ts[1..]);
        var acc' :=
          if target.None? then acc
          else if ts[0].OutputRedirect? then acc.(outputRedirect := Some(Redirect(target.value, ts[0].append)))
          else acc.(errorRedirect := Some(Redirect(target.value, ts[0].append)));
        NonEmptyWordsSuffix(ts, |ts| - |AfterTarget(ts[1..])|);
        assert ts[|ts| - |AfterTarget(ts[1..])|..] == AfterTarget(ts[1..]);
        AssembleReadsItems(AfterTarget(ts[1..]), acc');
        AssembleRedirectStep(ts, acc);
      } else {
        var acc' :=
          if !ts[0].Word? then acc
          else if acc.command == "" then acc.(command := ts[0].text)
          else acc.(args := acc.args + [ts[0].text]);
        NonEmptyWordsSuffix(ts, 1);
        AssembleReadsItems(ts[1..], acc');
        if ts[0].Word? {
          AssembleWordStep(ts, acc);
        } else {
          AssembleInertStep(ts, acc);
        }
      }
    }
  }

  /**
   The record a parsed line yields: the command is the first operand (empty
   when there is none), the arguments are the other operands in order, and each
   redirect is the last one of its stream that had a target word.
   */
  lemma ParseReadsItems(line: string)
    ensures var items := Items(TokenizeLine(line));
            var ops := Operands(items);
            Parse(line) == CommandParts(Head(ops), Tail(ops), LastTarget(items, false), LastTarget(items, true))
  {
    AssembleReadsItems(TokenizeLine(line), EmptyCommand);
  }

  /** The parsed command is empty exactly when the line has no operand word. */
  lemma ParseCommandEmptyIff(line: string)
    ensures Parse(line).command == "" <==> Operands(Items(TokenizeLine(line))) == []
  {
    ParseReadsItems(line);
    OperandsNonEmpty(TokenizeLine(line));
  }

  /** Word tokens for a list of arguments. */
  function ArgTokens(ws: seq<string>): seq<Token> {
    if ws == [] then [] else [Word(ws[0])] + ArgTokens(ws[1..])
  }

  /** The operator and target tokens of an optional redirect. */
  function RedirectTokens(r: Option<Redirect>, toStderr: bool): seq<Token> {
    match r
    case None => []
    case Some(rd) => [if toStderr then ErrorRedirect(rd.append) else OutputRedirect(rd.append), Word(rd.path)]
  }

  /** The token form of a command record: command, arguments, then the two redirects. */
  function CommandTokens(cp: CommandParts): seq<Token> {
    (if cp.command == "" then [] else [Word(cp.command)])
    + (ArgTokens(cp.args) + (RedirectTokens(cp.outputRedirect, false) + RedirectTokens(cp.errorRedirect, true)))
  }

  /** A canonical command line for a record. */
  function RenderCommand(cp: CommandParts): string {
    CommandProps.Render(CommandTokens(cp))
  }

  /**
   The records a line can express: no arguments without a command, and no
   empty argument or redirect path, since the lexer never produces an empty word.
   */
  predicate Expressible(cp: CommandParts) {
    && (cp.command == "" ==> cp.args == [])
    && (forall k :: 0 <= k < |cp.args| ==> cp.args[k] != "")
    && (cp.outputRedirect.Some? ==> cp.outputRedirect.value.path != "")
    && (cp.errorRedirect.Some? ==> cp.errorRedirect.value.path != "")
  }

  lemma AssembleArgStep(w: string, rest: seq<Token>, acc: CommandParts)
    requires acc.command != ""
    ensures Assemble([Word(w)] + rest, acc) == Assemble(rest, acc.(args := acc.args + [w]))
  {
    assert ([Word(w)] + rest)[1..] == rest;
  }

  lemma {:induction false} AssembleArgs(ws: seq<string>, rest: seq<Token>, acc: CommandParts)
    requires acc.command != ""
    ensures Assemble(ArgTokens(ws) + rest, acc) == Assemble(rest, acc.(args := acc.args + ws))
    decreases |ws|
  {
    if ws == [] {
      assert ArgTokens(ws) + rest == rest;
      assert acc.args + ws == acc.args;
    } else {
      assert ArgTokens(ws) + rest == [Word(ws[0])] + (ArgTokens(ws[1..]) + rest);
      AssembleArgStep(ws[0], ArgTokens(ws[1..]) + rest, acc);
      AssembleArgs(ws[1..], rest, acc.(args := acc.args + [ws[0]]));
      assert acc.args + [ws[0]] + ws[1..] == acc.args + ws;
    }
  }

  lemma AssembleRedirect(r: Option<Redirect>, toStderr: bool, rest: seq<Token>, acc: CommandParts)
    ensures Assemble(RedirectTokens(r, toStderr) + rest, acc)
            == Assemble(rest, if r.None? then acc
                              else if toStderr then acc.(errorRedirect := r)
                              else acc.(outputRedirect := r))
  {
    if r.Some? {
      var ts := RedirectTokens(r, toStderr) + rest;
      assert ts[1..][0] == Word(r.value.path) && ts[1..][1..] == rest;
    } else {
      assert RedirectTokens(r, toStderr) + rest == rest;
    }
  }

  lemma CommandTokensNonEmpty(cp: CommandParts)
    requires Expressible(cp)
    ensures CommandProps.NonEmptyWords(CommandTokens(cp))
  {
    var ts := CommandTokens(cp);
    var head := if cp.command == "" then [] else [Word(cp.command)];
    var args := ArgTokens(cp.args);
    var out := RedirectTokens(cp.outputRedirect, false);
    var err := RedirectTokens(cp.errorRedirect, true);
    ArgTokensWords(cp.args);
    forall k | 0 <= k < |ts| && ts[k].Word? ensures ts[k].text != "" {
      if k < |head| {
      } else if k < |head| + |args| {
        assert ts[k] == args[k - |head|];
      } else if k < |head| + |args| + |out| {
        assert ts[k] == out[k - |head| - |args|];
      } else {
        assert ts[k] == err[k - |head| - |args| - |out|];
      }
    }
  }

  lemma {:induction false} ArgTokensWords(ws: seq<string>)
    ensures |ArgTokens(ws)| == |ws|
    ensures forall k :: 0 <= k < |ws| ==> ArgTokens(ws)[k] == Word(ws[k])
    decreases |ws|
  {
    if ws != [] {
      ArgTokensWords(ws[1..]);
    }
  }

  /**
   Round trip of the parser: every record a line can express is what the
   parser reads back from its canonical line.
   */
  lemma ParseRender(cp: CommandParts)
    requires Expressible(cp)
    ensures Parse(RenderCommand(cp)) == cp
  {
    var ts := CommandTokens(cp);
    CommandTokensNonEmpty(cp);
    CommandProps.TokenizeRender(ts);
    var out := RedirectTokens(cp.outputRedirect, false);
    var err := RedirectTokens(cp.errorRedirect, true);
    var tail := ArgTokens(cp.args) + (out + err);
    if cp.command == "" {
      assert cp.args == [];
      assert ts == tail;
      assert ArgTokens([]) + (out + err) == out + err;
      AssembleRedirect(cp.outputRedirect, false, err, EmptyCommand);
      var acc1 := if cp.outputRedirect.None? then EmptyCommand else EmptyCommand.(outputRedirect := cp.outputRedirect);
      AssembleRedirect(cp.errorRedirect, true, [], acc1);
      assert err + [] == err;
    } else {
      var acc0 := EmptyCommand.(command := cp.command);
      assert ts == [Word(cp.command)] + tail;
      assert Assemble(ts, EmptyCommand) == Assemble(tail, acc0);
      AssembleArgs(cp.args, out + err, acc0);
      var acc1 := acc0.(args := [] + cp.args);
      AssembleRedirect(cp.outputRedirect, false, err, acc1);
      var acc2 := if cp.outputRedirect.None? then acc1 else acc1.(outputRedirect := cp.outputRedirect);
      AssembleRedirect(cp.errorRedirect, true, [], acc2);
      assert err + [] == err;
      assert [] + cp.args == cp.args;
    }
  }

  /** On a lexed line every recorded redirect path is a non-empty word. */
  lemma {:induction false} LastTargetNonEmpty(ts: seq<Token>, toStderr: bool)
    requires CommandProps.NonEmptyWords(ts)
    ensures LastTarget(Items(ts), toStderr).Some? ==> LastTarget(Items(ts), toStderr).value.path != ""
    decreases |ts|
  {
    if ts != [] {
      if ts[0].OutputRedirect? || ts[0].ErrorRedirect? {
        var it := Redirection(ts[0].ErrorRedirect?, ts[0].append, TargetOf(ts[1..]));
        var after := AfterTarget(ts[1..]);
        RedirectStep(ts);
        NonEmptyWordsSuffix(ts, |ts| - |after|);
        assert ts[|ts| - |after|..] == after;
        LastTargetNonEmpty(after, toStderr);
        LastTargetCons(it, Items(after), toStderr);
        if it.target.Some? {
          assert ts[1].Word? && it.target.value == ts[1].text;
        }
      } else {
        ItemsStep(ts);
        NonEmptyWordsSuffix(ts, 1);
        LastTargetNonEmpty(ts[1..], toStderr);
        LastTargetCons(if ts[0].Word? then Operand(ts[0].text) else Inert, Items(ts[1..]), toStderr);
      }
    }
  }

  /** Every record the parser yields is one a line can express. */
  lemma ParseExpressible(line: string)
    ensures Expressible(Parse(line))
  {
    var ts := TokenizeLine(line);
    var ops := Operands(Items(ts));
    ParseReadsItems(line);
    OperandsNonEmpty(ts);
    LastTargetNonEmpty(ts, false);
    LastTargetNonEmpty(ts, true);
    if ops != [] {
      assert Head(ops) == ops[0] != "";
      forall k | 0 <= k < |Tail(ops)| ensures Tail(ops)[k] != "" {
        assert Tail(ops)[k] == ops[k + 1];
      }
    }
  }

  /** Parsing the canonical line of a parsed command gives the same command back. */
  lemma ParseIdempotent(line: string)
    ensures Parse(RenderCommand(Parse(line))) == Parse(line)
  {
    ParseExpressible(line);
    ParseRender(Parse(line));
  }
}
