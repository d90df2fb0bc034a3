/**
 Model of command completion (TrieNode::find_common_prefix, CompletionEngine
 and the rustyline Completer in src/completion.rs).

 The common prefix of several matches is given twice: LcpOf is a reference
 definition by folding a two-string prefix, and CommonPrefix is the source's
 loop that pops characters until every later match starts with the candidate.
 The directory scan of refresh_cache is a parameter: the names it finds.
 */
module Completion {
  import opened Wrappers
  import opened Trie

  /** c is a prefix of every word in ws. */
  predicate CommonTo(c: string, ws: seq<string>) {
    forall k :: 0 <= k < |ws| ==> IsPrefix(c, ws[k])
  }

  /** c is the longest common prefix of ws: common to all, and every common prefix is a prefix of c. */
  ghost predicate IsLcp(c: string, ws: seq<string>) {
    CommonTo(c, ws) && forall d :: CommonTo(d, ws) ==> IsPrefix(d, c)
  }

  /** The longest common prefix of two strings. */
  function Lcp2(a: string, b: string): (r: string)
    ensures IsPrefix(r, a) && IsPrefix(r, b)
    ensures |r| == |a| || |r| == |b| || a[|r|] != b[|r|]
    decreases |a|
  {
    if a == [] || b == [] || a[0] != b[0] then []
    else
      var r' := Lcp2(a[1..], b[1..]);
      assert a[..|r'| + 1] == [a[0]] + a[1..][..|r'|];
      assert b[..|r'| + 1] == [b[0]] + b[1..][..|r'|];
      [a[0]] + r'
  }

  /** The longest common prefix of a non-empty list, folded from the left. */
  function LcpOf(ws: seq<string>): string
    requires |ws| >= 1
    decreases |ws|
  {
    if |ws| == 1 then ws[0] else Lcp2(LcpOf(ws[..|ws| - 1]), ws[|ws| - 1])
  }

  lemma PrefixTrans(a: string, b: string, c: string)
    requires IsPrefix(a, b) && IsPrefix(b, c)
    ensures IsPrefix(a, c)
  {
    assert c[..|a|] == c[..|b|][..|a|];
  }

  lemma PrefixAntisym(a: string, b: string)
    requires IsPrefix(a, b) && IsPrefix(b, a)
    ensures a == b
  {
  }

  /** Every common prefix of a and b is a prefix of Lcp2(a, b). */
  lemma Lcp2Greatest(a: string, b: string, d: string)
    requires IsPrefix(d, a) && IsPrefix(d, b)
    ensures IsPrefix(d, Lcp2(a, b))
  {
    var r := Lcp2(a, b);
    assert r[..|d|] == a[..|r|][..|d|];
  }

  /** Extending a list by one word takes the two-string prefix with the old result. */
  lemma LcpExtend(c: string, ws: seq<string>, w: string)
    requires IsLcp(c, ws)
    ensures IsLcp(Lcp2(c, w), ws + [w])
  {
    var r := Lcp2(c, w);
    var ws' := ws + [w];
    forall k | 0 <= k < |ws'| ensures IsPrefix(r, ws'[k]) {
      if k < |ws| {
        assert ws'[k] == ws[k];
        PrefixTrans(r, c, ws[k]);
      }
    }
    forall d | CommonTo(d, ws') ensures IsPrefix(d, r) {
      forall k | 0 <= k < |ws| ensures IsPrefix(d, ws[k]) {
        assert ws'[k] == ws[k];
      }
      assert ws'[|ws|] == w;
      Lcp2Greatest(c, w, d);
    }
  }

  /** The reference fold meets the definition of a longest common prefix. */
  lemma {:induction false} LcpOfIsLcp(ws: seq<string>)
    requires |ws| >= 1
    ensures IsLcp(LcpOf(ws), ws)
    decreases |ws|
  {
    if |ws| == 1 {
      forall d | CommonTo(d, ws) ensures IsPrefix(d, ws[0]) {
        assert IsPrefix(d, ws[0]);
      }
    } else {
      var init := ws[..|ws| - 1];
      LcpOfIsLcp(init);
      LcpExtend(LcpOf(init), init, ws[|ws| - 1]);
      assert init + [ws[|ws| - 1]] == ws;
    }
  }

  /** A list has at most one longest common prefix. */
  lemma LcpUnique(c: string, d: string, ws: seq<string>)
    requires IsLcp(c, ws) && IsLcp(d, ws)
    ensures c == d
  {
    PrefixAntisym(c, d);
  }

  /**
   The source's loop: start from the first match and, for each later match,
   pop the last character until that match starts with the candidate. The
   result is the longest common prefix, so (LcpUnique) it is LcpOf(matches).
   */
  method CommonPrefix(matches: seq<string>) returns (common: string)
    requires |matches| >= 1
    ensures IsLcp(common, matches)
  {
    common := matches[0];
    assert IsLcp(common, matches[..1]) by {
      forall d | CommonTo(d, matches[..1]) ensures IsPrefix(d, common) {
        assert matches[..1][0] == common;
      }
    }
    var i := 1;
    while i < |matches|
      invariant 1 <= i <= |matches|
      invariant IsLcp(common, matches[..i])
    {
      var name := matches[i];
      ghost var before := common;
      while !IsPrefix(common, name)
        invariant IsPrefix(common, before)
        invariant IsPrefix(Lcp2(before, name), common)
        decreases |common|
      {
        PrefixTrans(common[..|common| - 1], common, before);
        common := common[..|common| - 1];
      }
      Lcp2Greatest(before, name, common);
      PrefixAntisym(common, Lcp2(before, name));
      LcpExtend(before, matches[..i], name);
      assert matches[..i] + [name] == matches[..i + 1];
      i := i + 1;
    }
    assert matches[..i] == matches;
  }

  /**
   What a Tab press completes the typed prefix to: nothing when no stored word
   starts with it, the only match and a space, or the common prefix of the
   matches when it is longer than the prefix. The double-tab listing prints
   and returns nothing; it is modelled in the DoubleTab module.
   */
  function FindCommonPrefix(root: Node, prefix: string): (r: Option<string>)
    ensures FindPrefix(root, prefix) == [] ==> r.None?
    ensures |FindPrefix(root, prefix)| == 1 ==> r == Some(FindPrefix(root, prefix)[0] + " ")
    ensures |FindPrefix(root, prefix)| >= 2 && r.Some? ==>
              IsLcp(r.value, FindPrefix(root, prefix)) && |r.value| > |prefix|
    ensures |FindPrefix(root, prefix)| >= 2 && r.None? ==>
              forall d :: IsLcp(d, FindPrefix(root, prefix)) ==> |d| <= |prefix|
  {
    var matches := FindPrefix(root, prefix);
    if matches == [] then None
    else if |matches| == 1 then Some(matches[0] + " ")
    else
      var common := LcpOf(matches);
      LcpOfIsLcp(matches);
      assert forall d :: IsLcp(d, matches) ==> d == common by {
        forall d | IsLcp(d, matches) ensures d == common {
          LcpUnique(d, common, matches);
        }
      }
      if |common| > |prefix| then Some(common) else None
  }

  /** Inserts the names in order. */
  function InsertAll(root: Node, names: seq<string>): Node
    decreases |names|
  {
    if names == [] then root else InsertAll(Insert(root, names[0]), names[1..])
  }

  /**
   refresh_cache: inserts the builtin names, then the names found on the
   search path, into the existing trie; nothing is removed.
   */
  function Refresh(root: Node, builtins: seq<string>, pathNames: seq<string>): Node {
    InsertAll(InsertAll(root, builtins), pathNames)
  }

  /** CompletionEngine::new: an empty trie, refreshed once. */
  function NewEngine(builtins: seq<string>, pathNames: seq<string>): Node {
    Refresh(New(), builtins, pathNames)
  }

  /** char::is_whitespace: the Unicode White_Space characters. */
  predicate IsWhitespace(c: char) {
    || ('\t' <= c <= '\r')
    || c == ' '
    || c == '\U{0085}'
    || c == '\U{00A0}'
    || c == '\U{1680}'
    || ('\U{2000}' <= c <= '\U{200A}')
    || c == '\U{2028}'
    || c == '\U{2029}'
    || c == '\U{202F}'
    || c == '\U{205F}'
    || c == '\U{3000}'
  }

  /** Where the word under the cursor starts: just after the last whitespace before pos, or 0. */
  function WordStart(line: string, pos: nat): (start: nat)
    requires pos <= |line|
    ensures start <= pos
    ensures forall k :: start <= k < pos ==> !IsWhitespace(line[k])
    ensures start == 0 || IsWhitespace(line[start - 1])
    decreases pos
  {
    if pos == 0 then 0
    else if IsWhitespace(line[pos - 1]) then pos
    else WordStart(line, pos - 1)
  }

  /**
   The Completer: the start of the word under the cursor, and at most one
   candidate, the completion of that word. Positions count characters.
   */
  function Complete(root: Node, line: string, pos: nat): (r: (nat, seq<string>))
    requires pos <= |line|
    ensures r.0 <= pos
    ensures forall k :: r.0 <= k < pos ==> !IsWhitespace(line[k])
    ensures r.0 == 0 || IsWhitespace(line[r.0 - 1])
    ensures |r.1| <= 1
    ensures r.1 == [] <==> FindCommonPrefix(root, line[r.0..pos]).None?
    ensures r.1 != [] ==> r.1[0] == FindCommonPrefix(root, line[r.0..pos]).value
  {
    var start := WordStart(line, pos);
    match FindCommonPrefix(root, line[start..pos])
    case Some(c) => (start, [c])
    case None => (start, [])
  }
}
