# shelly: lexer, command parser and trie completion

This project is a Dafny model of two pure parts of the shelly shell, with proofs about them.

**The command line (`src/command.rs`).**
- `Lexer::read_word` and `Lexer::tokenize` turn a line into tokens:
  - words;
  - the output redirects `>`, `>>`, `1>` and `1>>`;
  - the error redirects `2>` and `2>>`;
  - `|` and `&`.
- `CommandParser::parse` folds those tokens into a `CommandParts` record. The record holds:
  - the command;
  - the arguments;
  - an optional `(path, append)` pair for stdout;
  - an optional `(path, append)` pair for stderr.

**Tab completion (`src/completion.rs`).**
- A trie of command names supports:
  - `insert`;
  - `find_prefix`;
  - `collect_words`;
  - the value returned by `find_common_prefix`.
- `refresh_cache` fills the trie from the builtin names and the names found on the search path.
- The `complete` callback finds the word under the cursor and offers at most one completion for it.

Modules:

- `Command` (command.dfy): the data model (`Token`, `Redirect`, `CommandParts`) and the lexer state `Lexer(chars, position)` with `Peek` and `Advance`. It also has `ReadWord` (a quote context `Quote` replaces the source's `in_quotes`), `Tokenize`, and `Assemble`/`Parse` (the parser's token loop as a left fold).
- `CommandProps` (command_props.dfy): lemmas about the lexer. These cover the redirect spellings, digit words, quote and backslash rules, and a round trip `TokenizeLine(Render(ts)) == ts` through a canonical spelling `Render`.
- `ParseProps` (parse_props.dfy): lemmas about the parser. An independent reading `Items` groups the tokens into:
  - operands;
  - redirects with the target word they consumed;
  - ignored tokens.

  `Parse` is proved equal to the record read off those items. There is also a round trip `Parse(RenderCommand(cp)) == cp`.
- `Trie` and `TrieProps` (trie.dfy, trie_props.dfy):
  - The trie node is `Node(edges, isEnd, word)`. Its children are an association list of `Edge(ch, child)`. `Contains(n, w)` says that following w from n reaches a terminal node.
  - The invariant `Valid` says two things: a terminal node's word is its path from the root, and sibling edges carry distinct characters.
  - Lemmas cover what `Insert` stores, that it keeps `Valid`, and that it is idempotent.
  - `FindPrefix` is proved to return exactly the stored names with the prefix, each once.
- `Completion` and `CompletionProps` (completion.dfy, completion_props.dfy):
  - the longest common prefix, including the source's pop loop as a method;
  - `FindCommonPrefix`, `Refresh` and `NewEngine`;
  - the word under the cursor (`WordStart`, `Complete`);
  - their properties in terms of the stored names.
- `DoubleTab` (double_tab.dfy) and `CursorBytes` (cursor_bytes.dfy): the two findings below, each modelled both as written and as evidently intended.

## Model

| member | source | states |
|---|---|---|
| Command.Lexer.Peek | src/command.rs:33-35 | a character is seen exactly when the position is inside the line, and it is the character at the position |
| Command.Lexer.Advance | src/command.rs:37-45 | returns what `Peek` shows; the position moves by one exactly when a character was returned; the line is unchanged |
| Command.ReadWord | src/command.rs:47-91 | the word stops only at a blank or at the end of the line; the word is no longer than the span it consumed; a word started unquoted on a non-blank consumes at least one character, so tokenizing terminates |
| Command.ConsumeAppend | src/command.rs:104-109 | append mode exactly when the next character is `>`, and that character is consumed exactly then |
| Command.Tokenize | src/command.rs:93-159 | no word token is empty; there are at most as many tokens as characters left |
| Command.TokenizeLine | src/command.rs:26-31 | a whole line is lexed from its first character; no word token is empty and there are at most as many tokens as characters; what the tokens are is stated by `TokenizeRender`, `RedirectOperatorAt`, `QuotedLine` and `PlainLine` |
| CommandProps.RedirectOperatorAt | src/command.rs:102-140 | `>`/`>>` lex to `OutputRedirect(false/true)`; `1>`/`1>>` lex the same; `2>`/`2>>` lex to `ErrorRedirect(false/true)`; lexing continues right after the operator; after an append form anything may follow, even another `>` |
| CommandProps.AppendThenGreater | src/command.rs:102-136 | the line `2>>>x` lexes to `ErrorRedirect(true)`, `OutputRedirect(false)` and the word `x` |
| CommandProps.DigitWordAt | src/command.rs:112-139 | a `1` or `2` that starts a token and is not followed by `>` is a word of its own, whatever follows it |
| CommandProps.TwelveIsTwoWords | src/command.rs:112-139 | the line `12` lexes to the two words `1` and `2` |
| CommandProps.OneThenLetter | src/command.rs:112-125 | the line `1a` lexes to the words `1` and `a` |
| CommandProps.OperatorInsideWord | src/command.rs:83-87 | `hi>out` is one word: an operator character inside a word does not end it |
| CommandProps.PlainLine | src/command.rs:61-87 | an unquoted run of literal characters, including `>`, the pipe sign, `&` and digits after the first character, is one word; a backslash at the very end of the line adds nothing |
| CommandProps.EscapedRun | src/command.rs:61-71 | outside quotes, each backslash is dropped and the character after it is kept verbatim, whatever it is |
| CommandProps.StepBackslashAtEnd | src/command.rs:61-81 | a backslash that ends the line yields nothing outside quotes and a lone backslash inside quotes |
| CommandProps.QuotedLine | src/command.rs:53-60 | quote marks are dropped; blanks and the other kind of quote inside a quote are kept; only the same mark closes it; a quote left open keeps the rest of the line in the word |
| CommandProps.DoubleQuotedLine | src/command.rs:72-79 | inside double quotes `\"` and `\\` give the second character alone, so a word escaped that way reads back as itself |
| CommandProps.BackslashInQuotes | src/command.rs:72-79 | inside quotes, a backslash pair is kept whole except `\"` and `\\` inside double quotes; the escaped character never closes the quote, in single quotes as well |
| CommandProps.EmptyQuotes | src/command.rs:150-155 | an empty quoted word `''` or `""` yields no token |
| CommandProps.TokenizeRender | src/command.rs:93-159 | every token sequence without empty words is read back by the lexer from its canonical spelling |
| ParseProps.WordsPartition | src/command.rs:176-199 | every word of the token stream is exactly once either an operand or a redirect target, so a redirect target never becomes an argument |
| ParseProps.ParseReadsItems | src/command.rs:165-202 | the command is the first operand, the arguments are the other operands in order, and each redirect is the last one of its stream that consumed a word |
| ParseProps.ParseCommandEmptyIff | src/command.rs:180-186 | the command is empty exactly when the line has no word that is not a redirect target |
| ParseProps.OperandsNonEmpty | src/command.rs:150-155 | the operands of a lexed line are never empty strings |
| ParseProps.AssembleArgs | src/command.rs:180-186 | once a command is set, further words are appended to the arguments in order |
| ParseProps.AssembleRedirect | src/command.rs:187-196 | a redirect followed by a word records `(word, append)` for its stream and consumes the word |
| ParseProps.ParseRender | src/command.rs:165-202 | every record a line can express is what the parser reads back from its canonical line |
| ParseProps.LastTargetNonEmpty | src/command.rs:187-196 | on a lexed line a recorded redirect path is never empty |
| ParseProps.ParseExpressible | src/command.rs:165-202 | every parsed record is expressible: no arguments without a command, and no empty argument or redirect path |
| ParseProps.ParseIdempotent | src/command.rs:165-202 | re-serialising a parsed line and parsing it again gives the same command |
| Command.Assemble | src/command.rs:176-199 | the token loop as a left fold into the record; what it adds to the record is read off the items of the stream (`AssembleReadsItems`, `ParseReadsItems`) |
| Command.Parse | src/command.rs:165-202 | tokenize, then fold from the empty record; stated by `ParseReadsItems`, `ParseCommandEmptyIff`, `ParseExpressible`, `ParseRender` and `ParseIdempotent` |
| TrieProps.NewIsEmpty | src/completion.rs:25-31 | a new node stores no word |
| Trie.New | src/completion.rs:25-31 | no children, not terminal, empty word; it stores no word (`NewIsEmpty`) and is valid (`ValidNew`) |
| TrieProps.InsertContains | src/completion.rs:34-41 | after inserting w the trie stores w and exactly what it stored before; every other path keeps its terminal status |
| TrieProps.InsertReaches | src/completion.rs:34-41 | after inserting w, following w from the root reaches a terminal node whose word is w |
| TrieProps.InsertValid | src/completion.rs:34-41 | insertion preserves the invariant that every terminal node's word is its path from the root |
| TrieProps.InsertIdempotent | src/completion.rs:34-41 | inserting the same word twice gives the same trie as inserting it once |
| TrieProps.InsertStored | src/completion.rs:34-41 | inserting a word that a valid trie already stores leaves the trie unchanged |
| Trie.InsertAt | src/completion.rs:35-40 | walks the rest of the word creating missing children and marks the node reached; it stores exactly one more path (`InsertAtContains`) and keeps the invariant (`InsertAtValid`) |
| Trie.Insert | src/completion.rs:34-41 | stated by `InsertContains`, `InsertReaches`, `InsertValid`, `InsertIdempotent` and `InsertStored` |
| TrieProps.CollectWordsExact | src/completion.rs:63-71 | the collected words are exactly the path plus a word stored below the node, each once |
| TrieProps.DescendContains | src/completion.rs:44-60 | a word with prefix p is stored exactly when walking p succeeds and the rest of the word is stored below the node reached |
| TrieProps.FindPrefixExact | src/completion.rs:44-71 | `find_prefix(p)` returns exactly the stored words that start with p, each once |
| Trie.Descend | src/completion.rs:48-55 | follows the prefix child by child, failing as soon as a character has no child; stated by `DescendContains` and `DescendValid` |
| Trie.FindPrefix | src/completion.rs:44-60 | nothing when the walk fails, otherwise the words collected below; stated by `FindPrefixExact` |
| Trie.CollectWords | src/completion.rs:63-71 | the node's own word first, then the words under each child; stated by `CollectWordsExact` |
| Trie.CollectFrom | src/completion.rs:68-70 | the loop over the children from the i-th edge on; stated by `CollectFromExact` |
| Completion.Lcp2 | src/completion.rs:95-97 | the common prefix of two words is a prefix of both and cannot be extended |
| Completion.LcpOfIsLcp | src/completion.rs:92-98 | the folded common prefix of the matches is common to all of them, and every common prefix is a prefix of it |
| Completion.CommonPrefix | src/completion.rs:92-98 | the pop-until-every-match-starts-with-it loop terminates with the longest common prefix of the matches |
| Completion.FindCommonPrefix | src/completion.rs:80-121 | no match gives nothing; one match w gives `w + " "`; with several matches a result is their longest common prefix and is longer than the input, and nothing is returned only when that prefix adds no character |
| Completion.WordStart | src/completion.rs:204-209 | the word start is at or before the cursor; no whitespace lies between it and the cursor; it is 0 or right after a whitespace character |
| Completion.Complete | src/completion.rs:197-223 | the word extraction above, and at most one candidate, which is present exactly when `find_common_prefix` of the word returns one |
| CompletionProps.LcpIgnoresOrder | src/completion.rs:92-93 | the common prefix does not depend on the order of the matches, so the sort does not change the result |
| CompletionProps.PrefixOfMatches | src/completion.rs:92-98 | with two or more matches, the common prefix starts with the typed prefix |
| CompletionProps.FindCommonPrefixStored | src/completion.rs:80-103 | in terms of stored names: nothing when none starts with the prefix; the only such name plus a space; otherwise the common prefix, returned exactly when it is longer than the prefix |
| CompletionProps.CompletionExtendsWord | src/completion.rs:197-223 | an offered candidate starts with the word under the cursor and is longer than it |
| CompletionProps.InsertAllContains | src/completion.rs:152-154 | inserting a list of names stores exactly those names and what was stored before |
| CompletionProps.InsertAllValid | src/completion.rs:152-154 | inserting a list of names keeps the trie valid |
| CompletionProps.InsertAllStored | src/completion.rs:152-154 | inserting names already stored leaves a valid trie unchanged |
| CompletionProps.RefreshContains | src/completion.rs:148-167 | after a refresh the trie stores what it stored before, every builtin and every name found, and nothing else |
| CompletionProps.RefreshTwice | src/completion.rs:148-167 | refreshing twice with the same names gives the same trie as refreshing once |
| CompletionProps.RefreshKeepsMatches | src/completion.rs:148-167 | a refresh never loses a completion match that existed before it |
| CompletionProps.NewEngineContains | src/completion.rs:135-141 | a new engine stores exactly the builtins and the names found on the search path |
| Completion.InsertAll | src/completion.rs:152-154 | inserts the names in order; stated by `InsertAllContains`, `InsertAllValid` and `InsertAllStored` |
| Completion.Refresh | src/completion.rs:148-167 | builtins first, then the names found, inserted into the existing trie; stated by `RefreshContains`, `RefreshTwice` and `RefreshKeepsMatches` |
| Completion.NewEngine | src/completion.rs:135-141 | an empty trie refreshed once; stated by `NewEngineContains` |
| Completion.IsWhitespace | src/completion.rs:207 | the characters `char::is_whitespace` accepts: U+0009 to U+000D, space, U+0085, U+00A0, U+1680, U+2000 to U+200A, U+2028, U+2029, U+202F, U+205F and U+3000; used by `WordStart` |
| DoubleTab.AmbiguousPressAsWritten | src/completion.rs:104-118 | as written: the matches are listed exactly when the wrapped 64-bit difference between the measured count and the last one is below 500 |
| DoubleTab.AsWrittenListsEveryPress | src/completion.rs:104-118 | as written, when no millisecond passes between the two clock reads, every ambiguous press lists the matches, the first one included |
| DoubleTab.Session | src/completion.rs:104-118 | corrected: the first ambiguous press never lists; a later one lists exactly when it follows the previous one by less than 500 ms |
| DoubleTab.TenSecondsApart | src/completion.rs:104-118 | two presses ten seconds apart: the source lists both, the corrected behaviour lists neither |
| CursorBytes.WordStartBytesAsWritten | src/completion.rs:204-209 | as written: the byte start is one past the first byte of the last whitespace, and not past the cursor |
| CursorBytes.WordStartBytes | src/completion.rs:204-209 | corrected: the byte start is the byte offset of the word start, a character boundary, not past the cursor |
| CursorBytes.AsWrittenAgreesOnAscii | src/completion.rs:204-209 | when the separating whitespace is ASCII, the source's byte start is the corrected one |
| CursorBytes.AsWrittenSplitsNoBreakSpace | src/completion.rs:204-209 | for `a`, no-break space, `b` with the cursor at the end, the source's start is byte 2, which is not a character boundary; the corrected start is byte 3 |

## Left out

- src/shell.rs, src/builtin.rs, src/error.rs and src/main.rs are not part of this model. They hold the prompt loop, history, process spawning, redirect files, the builtins and error display, and are all I/O.
- The double-tab side effects (src/completion.rs:104-118) are left out of `FindCommonPrefix`: the printing, the flush and the two atomics. That function models only the returned value, which is `None` in that branch whatever the timing. The timing decision itself is modelled in `DoubleTab`.
- The `Arc<RwLock<…>>` around the trie and the rustyline derive and trait glue are left out. Reads and refreshes are modelled as plain function calls on a trie value.
- The scan of the search path is left out: `env::var_os`, `split_paths`, `read_dir`, and skipping unreadable directories and non-UTF-8 names. `Refresh` takes the found names as a parameter, in scan order.
- The builtin names are a `HashSet` in the source. `Refresh` takes them as a sequence, in whatever order the set yields.
- The sort in `find_common_prefix` is left out, and so is the `HashMap` iteration order in `collect_words`. Children are an association list whose order stands for that unspecified order. `LcpIgnoresOrder` shows the common prefix does not depend on the order of the matches. The order matters only for the listing that is printed.
- Completion.Complete counts positions in characters. The source counts UTF-8 bytes. `CursorBytes` relates the two for the word start.
- The `'n' => word.push('n')` arm of `read_word` behaves like the default arm, so both are modelled as one case.
- `PathBuf::from(path)` is modelled as the path string itself.
- DoubleTab.AmbiguousPressAsWritten: the subtraction `now - last_tab` wraps around at 64 bits as in a release build. A debug build panics on that underflow instead, and the model does not include the panic.

Behaviour of the code that a reader might not expect, and which the model keeps:
- `refresh_cache` only inserts and never clears the trie, although its doc comment (src/completion.rs:144) speaks of rebuilding the trie. Names that disappeared from the search path stay completable. `RefreshContains` states the insert-only behaviour.
- Unlike a POSIX shell, a word does not end at `>`, `|` or `&`: `hi>out` is one word (`OperatorInsideWord`).
- A backslash inside single quotes consumes the next character (`BackslashInQuotes`).
- A redirect consumes the next token of any kind and records it only when it is a word (`AssembleRedirect`, `ParseReadsItems`).
- `common_prefix.len() > prefix.len()` (src/completion.rs:101) compares UTF-8 byte lengths, while `FindCommonPrefix` compares character counts. The two agree because the common prefix always starts with the typed prefix (`PrefixOfMatches`), so it is longer in bytes exactly when it is longer in characters.

## Findings

| source | as written | input that shows it | evidently intended | confidence | as-written member | corrected member |
|---|---|---|---|---|---|---|
| src/completion.rs:104-118 | `now` is `Instant::now().elapsed()`, the time between two adjacent clock reads, which is almost always 0 ms; with `LAST_TAB_TIME` starting at 0, `now - last_tab < 500` holds on every ambiguous press | two ambiguous Tab presses ten seconds apart: both list all matches, and so does the very first press of the session | list the matches only when the previous ambiguous press was less than 500 ms earlier, as the doc comment at src/completion.rs:78 says | high; not executed | DoubleTab.AsWrittenListsEveryPress | DoubleTab.Session |
| src/completion.rs:204-209 | the word start is `i + 1`, where `i` is the byte index of the last whitespace character; this is inside that character when it takes more than one UTF-8 byte, and `&line[i + 1..pos]` then panics | the line `a`, U+00A0 (no-break space), `b`, with the cursor at the end: `i = 1`, and slicing at byte 2 is not at a character boundary | start the word after the whole whitespace character (`i + c.len_utf8()`) | high; not executed | CursorBytes.AsWrittenSplitsNoBreakSpace | CursorBytes.WordStartBytes |
