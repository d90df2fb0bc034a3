/**
 Properties of completion: what a Tab press completes to in terms of the
 stored names, that a completion never drops what was typed, that the order
 of the matches does not matter, and what refreshing the cache stores.
 */
module CompletionProps {
  import opened Wrappers
  import opened Trie
  import opened TrieProps
  import opened Completion

  /** The longest common prefix depends only on the matches, not on their order. */
  lemma LcpIgnoresOrder(ws1: seq<string>, ws2: seq<string>)
    requires |ws1| >= 1 && multiset(ws1) == multiset(ws2)
    ensures |ws2| >= 1 && LcpOf(ws1) == LcpOf(ws2)
  {
    assert |ws2| == |multiset(ws2)| == |multiset(ws1)| == |ws1|;
    var c := LcpOf(ws1);
    LcpOfIsLcp(ws1);
    LcpOfIsLcp(ws2);
    forall d | CommonTo(d, ws1) ensures CommonTo(d, ws2) {
      forall k | 0 <= k < |ws2| ensures IsPrefix(d, ws2[k]) {
        assert ws2[k] in multiset(ws1);
        var j :| 0 <= j < |ws1| && ws1[j] == ws2[k];
      }
    }
    forall d | CommonTo(d, ws2) ensures CommonTo(d, ws1) {
      forall k | 0 <= k < |ws1| ensures IsPrefix(d, ws1[k]) {
        assert ws1[k] in multiset(ws2);
        var j :| 0 <= j < |ws2| && ws2[j] == ws1[k];
      }
    }
    assert IsLcp(c, ws2);
    LcpUnique(c, LcpOf(ws2), ws2);
  }

  /** The stored words that start with prefix. */
  ghost predicate Completes(root: Node, prefix: string, w: string) {
    Contains(root, w) && IsPrefix(prefix, w)
  }

  /** When at least two words start with prefix, so does their common prefix. */
  lemma PrefixOfMatches(root: Node, prefix: string)
    requires Valid(root, []) && |FindPrefix(root, prefix)| >= 2
    ensures IsPrefix(prefix, LcpOf(FindPrefix(root, prefix)))
  {
    var matches := FindPrefix(root, prefix);
    FindPrefixExact(root, prefix);
    LcpOfIsLcp(matches);
    assert CommonTo(prefix, matches) by {
      forall k | 0 <= k < |matches| ensures IsPrefix(prefix, matches[k]) {
        assert matches[k] in matches;
      }
    }
  }

  /**
   On a valid trie, in terms of the stored names: no completion when nothing
   stored starts with the prefix; the only such name and a space when there is
   one; otherwise the common prefix of all of them, which starts with the
   prefix, and nothing exactly when that common prefix adds no character.
   */
  lemma FindCommonPrefixStored(root: Node, prefix: string)
    requires Valid(root, [])
    ensures (forall w :: Contains(root, w) ==> !IsPrefix(prefix, w)) ==>
              FindCommonPrefix(root, prefix).None?
    ensures forall w :: Completes(root, prefix, w) &&
                        (forall x :: Completes(root, prefix, x) ==> x == w) ==>
              FindCommonPrefix(root, prefix) == Some(w + " ")
    ensures |FindPrefix(root, prefix)| >= 2 ==>
              && IsPrefix(prefix, LcpOf(FindPrefix(root, prefix)))
              && (FindCommonPrefix(root, prefix).None? <==> LcpOf(FindPrefix(root, prefix)) == prefix)
              && (FindCommonPrefix(root, prefix).Some? ==>
                    FindCommonPrefix(root, prefix).value == LcpOf(FindPrefix(root, prefix)))
  {
    var matches := FindPrefix(root, prefix);
    FindPrefixExact(root, prefix);
    forall w | Completes(root, prefix, w) && (forall x :: Completes(root, prefix, x) ==> x == w)
      ensures FindCommonPrefix(root, prefix) == Some(w + " ")
    {
      assert w in matches;
      if |matches| >= 2 {
        assert matches[0] in matches && matches[1] in matches;
        assert Completes(root, prefix, matches[0]) && Completes(root, prefix, matches[1]);
        assert false;
      }
      assert matches[0] in matches;
    }
    if |matches| >= 2 {
      PrefixOfMatches(root, prefix);
      LcpOfIsLcp(matches);
    }
  }

  /**
   A candidate offered for the word under the cursor starts with that word
   and is longer than it: completion never drops or replaces what was typed.
   */
  lemma CompletionExtendsWord(root: Node, line: string, pos: nat)
    requires Valid(root, []) && pos <= |line|
    ensures var r := Complete(root, line, pos);
            r.1 != [] ==> IsPrefix(line[r.0..pos], r.1[0]) && |r.1[0]| > pos - r.0
  {
    var r := Complete(root, line, pos);
    var word := line[r.0..pos];
    var matches := FindPrefix(root, word);
    FindPrefixExact(root, word);
    if |matches| == 1 {
      assert matches[0] in matches;
      assert (matches[0] + " ")[..|word|] == matches[0][..|word|];
    } else if |matches| >= 2 {
      FindCommonPrefixStored(root, word);
    }
  }

  /** Inserting a list of names stores exactly those names besides what was stored. */
  lemma {:induction false} InsertAllContains(root: Node, names: seq<string>)
    ensures forall x :: Contains(InsertAll(root, names), x) <==> Contains(root, x) || x in names
    decreases |names|
  {
    if names != [] {
      InsertContains(root, names[0]);
      InsertAllContains(Insert(root, names[0]), names[1..]);
      assert forall x :: x in names <==> x == names[0] || x in names[1..];
    }
  }

  lemma {:induction false} InsertAllValid(root: Node, names: seq<string>)
    requires Valid(root, [])
    ensures Valid(InsertAll(root, names), [])
    decreases |names|
  {
    if names != [] {
      InsertValid(root, names[0]);
      InsertAllValid(Insert(root, names[0]), names[1..]);
    }
  }

  /** Inserting names that are all stored already leaves a valid trie unchanged. */
  lemma {:induction false} InsertAllStored(root: Node, names: seq<string>)
    requires Valid(root, []) && forall x :: x in names ==> Contains(root, x)
    ensures InsertAll(root, names) == root
    decreases |names|
  {
    if names != [] {
      InsertStored(root, names[0]);
      InsertAllStored(root, names[1..]);
    }
  }

  /**
   After a refresh the trie stores what it stored before and every builtin
   and every name found on the search path, and nothing else; it stays valid.
   */
  lemma RefreshContains(root: Node, builtins: seq<string>, pathNames: seq<string>)
    requires Valid(root, [])
    ensures Valid(Refresh(root, builtins, pathNames), [])
    ensures forall x :: Contains(Refresh(root, builtins, pathNames), x) <==>
                        Contains(root, x) || x in builtins || x in pathNames
  {
    InsertAllValid(root, builtins);
    InsertAllValid(InsertAll(root, builtins), pathNames);
    InsertAllContains(root, builtins);
    InsertAllContains(InsertAll(root, builtins), pathNames);
  }

  /** Refreshing a second time with the same names leaves the trie exactly as it was. */
  lemma RefreshTwice(root: Node, builtins: seq<string>, pathNames: seq<string>)
    requires Valid(root, [])
    ensures Refresh(Refresh(root, builtins, pathNames), builtins, pathNames) ==
            Refresh(root, builtins, pathNames)
  {
    var t := Refresh(root, builtins, pathNames);
    RefreshContains(root, builtins, pathNames);
    InsertAllStored(t, builtins);
    InsertAllStored(t, pathNames);
  }

  /** A refresh never loses a completion that was available before it. */
  lemma RefreshKeepsMatches(root: Node, builtins: seq<string>, pathNames: seq<string>, prefix: string)
    requires Valid(root, [])
    ensures forall w :: w in FindPrefix(root, prefix) ==>
                        w in FindPrefix(Refresh(root, builtins, pathNames), prefix)
  {
    RefreshContains(root, builtins, pathNames);
    FindPrefixExact(root, prefix);
    FindPrefixExact(Refresh(root, builtins, pathNames), prefix);
  }

  /** A new engine stores exactly the builtins and the names found on the search path. */
  lemma NewEngineContains(builtins: seq<string>, pathNames: seq<string>)
    ensures Valid(NewEngine(builtins, pathNames), [])
    ensures forall x :: Contains(NewEngine(builtins, pathNames), x) <==> x in builtins || x in pathNames
  {
    ValidNew([]);
    RefreshContains(New(), builtins, pathNames);
    forall x ensures !Contains(New(), x) {
      NewIsEmpty(x);
    }
  }
}
