/**
 Properties of the completion trie: what Insert stores, the invariant that a
 terminal node's word is its path from the root, idempotence of insertion,
 and that FindPrefix returns exactly the stored words with the prefix, each once.
 */
module TrieProps {
  import opened Wrappers
  import opened Trie

  predicate DistinctLabels(edges: seq<Edge>) {
    forall j, k :: 0 <= j < k < |edges| ==> edges[j].ch != edges[k].ch
  }

  /**
   The trie invariant for a node reached by path: a terminal node's word is
   its path, and the children of every node carry distinct characters.
   */
  predicate Valid(n: Node, path: string)
    decreases n
  {
    && (n.isEnd ==> n.word == path)
    && DistinctLabels(n.edges)
    && forall k :: 0 <= k < |n.edges| ==> Valid(n.edges[k].child, path + [n.edges[k].ch])
  }

  lemma ContainsStep(n: Node, w: string)
    ensures Contains(n, w) <==>
            if w == [] then n.isEnd else Child(n, w[0]).Some? && Contains(Child(n, w[0]).value, w[1..])
  {
  }

  lemma NewIsEmpty(w: string)
    ensures !Contains(New(), w)
  {
    ContainsStep(New(), w);
  }

  /** Replacing an edge by one with the same character leaves every lookup's position alone. */
  lemma {:induction false} EdgeIndexUpdate(edges: seq<Edge>, k: nat, e: Edge, d: char)
    requires k < |edges| && edges[k].ch == e.ch
    ensures EdgeIndex(edges[k := e], d) == EdgeIndex(edges, d)
    decreases |edges|
  {
    if edges != [] && edges[0].ch != d && k > 0 {
      assert edges[k := e][1..] == edges[1..][k - 1 := e];
      EdgeIndexUpdate(edges[1..], k - 1, e, d);
    }
  }

  /** A new edge appended for a character not yet present is found at the end. */
  lemma {:induction false} EdgeIndexAppend(edges: seq<Edge>, e: Edge, d: char)
    requires EdgeIndex(edges, e.ch).None?
    ensures EdgeIndex(edges + [e], d) == if d == e.ch then Some(|edges|) else EdgeIndex(edges, d)
    decreases |edges|
  {
    if edges != [] {
      assert (edges + [e])[1..] == edges[1..] + [e];
      if edges[0].ch != d {
        EdgeIndexAppend(edges[1..], e, d);
      }
    }
  }

  /**
   InsertAt stores exactly rest in addition to what n stored: every other
   path keeps its terminal status.
   */
  lemma {:induction false} InsertAtContains(n: Node, rest: string, w: string, x: string)
    ensures Contains(InsertAt(n, rest, w), x) <==> Contains(n, x) || x == rest
    decreases |rest|
  {
    var n' := InsertAt(n, rest, w);
    ContainsStep(n', x);
    ContainsStep(n, x);
    if rest != [] && x != [] {
      var c := rest[0];
      match EdgeIndex(n.edges, c)
      case Some(k) =>
        var e := Edge(c, InsertAt(n.edges[k].child, rest[1..], w));
        assert n'.edges == n.edges[k := e];
        EdgeIndexUpdate(n.edges, k, e, x[0]);
        if x[0] == c {
          InsertAtContains(n.edges[k].child, rest[1..], w, x[1..]);
          assert x == rest <==> x[1..] == rest[1..];
        }
      case None =>
        var e := Edge(c, InsertAt(New(), rest[1..], w));
        assert n'.edges == n.edges + [e];
        EdgeIndexAppend(n.edges, e, x[0]);
        if x[0] == c {
          InsertAtContains(New(), rest[1..], w, x[1..]);
          NewIsEmpty(x[1..]);
          assert x == rest <==> x[1..] == rest[1..];
        }
    }
  }

  /** After Insert(root, w) the trie stores w and exactly what it stored before. */
  lemma InsertContains(root: Node, w: string)
    ensures forall x :: Contains(Insert(root, w), x) <==> Contains(root, x) || x == w
  {
    forall x {
      InsertAtContains(root, w, w, x);
    }
  }

  /** The node reached by rest after InsertAt is terminal and holds w. */
  lemma {:induction false} InsertAtReaches(n: Node, rest: string, w: string)
    ensures var m := Descend(InsertAt(n, rest, w), rest); m.Some? && m.value.isEnd && m.value.word == w
    decreases |rest|
  {
    if rest != [] {
      var n' := InsertAt(n, rest, w);
      var c := rest[0];
      match EdgeIndex(n.edges, c)
      case Some(k) =>
        var e := Edge(c, InsertAt(n.edges[k].child, rest[1..], w));
        EdgeIndexUpdate(n.edges, k, e, c);
        assert Child(n', c) == Some(e.child);
        InsertAtReaches(n.edges[k].child, rest[1..], w);
      case None =>
        var e := Edge(c, InsertAt(New(), rest[1..], w));
        EdgeIndexAppend(n.edges, e, c);
        assert Child(n', c) == Some(e.child);
        InsertAtReaches(New(), rest[1..], w);
    }
  }

  /** After Insert(root, w), following w from the root reaches a terminal node whose word is w. */
  lemma InsertReaches(root: Node, w: string)
    ensures var m := Descend(Insert(root, w), w); m.Some? && m.value.isEnd && m.value.word == w
  {
    InsertAtReaches(root, w, w);
  }

  lemma ValidNew(path: string)
    ensures Valid(New(), path)
  {
  }

  /** InsertAt keeps the invariant when the word stored is the path to the node plus rest. */
  lemma {:induction false} InsertAtValid(n: Node, path: string, rest: string)
    requires Valid(n, path)
    ensures Valid(InsertAt(n, rest, path + rest), path)
    decreases |rest|
  {
    var n' := InsertAt(n, rest, path + rest);
    if rest == [] {
      assert path + rest == path;
    } else {
      var c := rest[0];
      assert path + rest == (path + [c]) + rest[1..];
      match EdgeIndex(n.edges, c)
      case Some(k) =>
        var child := n.edges[k].child;
        assert Valid(child, path + [c]);
        InsertAtValid(child, path + [c], rest[1..]);
        var e := Edge(c, InsertAt(child, rest[1..], path + rest));
        assert n'.edges == n.edges[k := e];
        forall j | 0 <= j < |n'.edges| ensures Valid(n'.edges[j].child, path + [n'.edges[j].ch]) {
          if j != k {
            assert n'.edges[j] == n.edges[j];
          }
        }
      case None =>
        ValidNew(path + [c]);
        InsertAtValid(New(), path + [c], rest[1..]);
        var e := Edge(c, InsertAt(New(), rest[1..], path + rest));
        assert n'.edges == n.edges + [e];
        forall j | 0 <= j < |n'.edges| ensures Valid(n'.edges[j].child, path + [n'.edges[j].ch]) {
          if j < |n.edges| {
            assert n'.edges[j] == n.edges[j];
          }
        }
    }
  }

  /** Insert keeps the trie invariant: every terminal node's word is its path from the root. */
  lemma InsertValid(root: Node, w: string)
    requires Valid(root, [])
    ensures Valid(Insert(root, w), [])
  {
    InsertAtValid(root, [], w);
    assert [] + w == w;
  }

  /** Inserting along the same path with the same word a second time changes nothing. */
  lemma {:induction false} InsertAtTwice(n: Node, rest: string, w: string)
    ensures InsertAt(InsertAt(n, rest, w), rest, w) == InsertAt(n, rest, w)
    decreases |rest|
  {
    if rest != [] {
      var c := rest[0];
      var n' := InsertAt(n, rest, w);
      match EdgeIndex(n.edges, c)
      case Some(k) =>
        var e := Edge(c, InsertAt(n.edges[k].child, rest[1..], w));
        EdgeIndexUpdate(n.edges, k, e, c);
        InsertAtTwice(n.edges[k].child, rest[1..], w);
        assert n'.edges[k := Edge(c, InsertAt(e.child, rest[1..], w))] == n'.edges;
      case None =>
        var e := Edge(c, InsertAt(New(), rest[1..], w));
        EdgeIndexAppend(n.edges, e, c);
        InsertAtTwice(New(), rest[1..], w);
        assert n'.edges[|n.edges| := Edge(c, InsertAt(e.child, rest[1..], w))] == n'.edges;
    }
  }

  /** Insertion is idempotent. */
  lemma InsertIdempotent(root: Node, w: string)
    ensures Insert(Insert(root, w), w) == Insert(root, w)
  {
    InsertAtTwice(root, w, w);
  }

  /** In a valid trie, inserting a word that is already stored changes nothing at all. */
  lemma {:induction false} InsertAtStored(n: Node, path: string, rest: string)
    requires Valid(n, path) && Contains(n, rest)
    ensures InsertAt(n, rest, path + rest) == n
    decreases |rest|
  {
    ContainsStep(n, rest);
    if rest == [] {
      assert path + rest == path;
    } else {
      var c := rest[0];
      var k := EdgeIndex(n.edges, c).value;
      var child := n.edges[k].child;
      assert path + rest == (path + [c]) + rest[1..];
      InsertAtStored(child, path + [c], rest[1..]);
      assert n.edges[k := Edge(c, child)] == n.edges;
    }
  }

  lemma InsertStored(root: Node, w: string)
    requires Valid(root, []) && Contains(root, w)
    ensures Insert(root, w) == root
  {
    InsertAtStored(root, [], w);
    assert [] + w == w;
  }

  predicate NoDuplicates(ws: seq<string>) {
    forall j, k :: 0 <= j < k < |ws| ==> ws[j] != ws[k]
  }

  lemma NoDuplicatesConcat(a: seq<string>, b: seq<string>)
    requires NoDuplicates(a) && NoDuplicates(b)
    requires forall w :: w in a ==> w !in b
    ensures NoDuplicates(a + b)
  {
    var ab := a + b;
    forall j, k | 0 <= j < k < |ab| ensures ab[j] != ab[k] {
      if j < |a| && k >= |a| {
        assert ab[j] in a && ab[k] == b[k - |a|];
      } else if j >= |a| {
        assert ab[j] == b[j - |a|] && ab[k] == b[k - |a|];
      }
    }
  }

  /** With distinct labels, the edge found for an edge's character is that edge. */
  lemma EdgeIndexOfDistinct(edges: seq<Edge>, i: nat)
    requires DistinctLabels(edges) && i < |edges|
    ensures EdgeIndex(edges, edges[i].ch) == Some(i)
  {
  }

  /** w lies below the edges of n from the i-th on, n being reached by path. */
  predicate BelowEdgesFrom(n: Node, path: string, i: nat, w: string) {
    && |w| > |path| && IsPrefix(path, w)
    && var e := EdgeIndex(n.edges, w[|path|]);
       e.Some? && e.value >= i && Contains(n.edges[e.value].child, w[|path| + 1..])
  }

  /**
   The words collected under a valid node reached by path are exactly the
   stored words below it, each written out in full, each once.
   */
  lemma {:induction false} CollectWordsExact(n: Node, path: string)
    requires Valid(n, path)
    ensures forall w :: w in CollectWords(n) <==> IsPrefix(path, w) && Contains(n, w[|path|..])
    ensures NoDuplicates(CollectWords(n))
    decreases n, 1
  {
    CollectFromExact(n, path, 0);
    var own := if n.isEnd then [n.word] else [];
    assert CollectWords(n) == own + CollectFrom(n, 0);
    forall w ensures w in CollectWords(n) <==> IsPrefix(path, w) && Contains(n, w[|path|..]) {
      if IsPrefix(path, w) {
        var q := w[|path|..];
        ContainsStep(n, q);
        if q == [] {
          assert w == path;
        } else {
          assert q[0] == w[|path|] && q[1..] == w[|path| + 1..];
        }
      }
    }
    NoDuplicatesConcat(own, CollectFrom(n, 0));
  }

  lemma {:induction false} CollectFromExact(n: Node, path: string, i: nat)
    requires Valid(n, path) && i <= |n.edges|
    ensures forall w :: w in CollectFrom(n, i) <==> BelowEdgesFrom(n, path, i, w)
    ensures NoDuplicates(CollectFrom(n, i))
    decreases n, 0, |n.edges| - i
  {
    if i < |n.edges| {
      var e := n.edges[i];
      var here := CollectWords(e.child);
      assert Valid(e.child, path + [e.ch]);
      CollectWordsExact(e.child, path + [e.ch]);
      CollectFromExact(n, path, i + 1);
      EdgeIndexOfDistinct(n.edges, i);
      forall w ensures w in here <==> BelowEdgesFrom(n, path, i, w) && EdgeIndex(n.edges, w[|path|]) == Some(i) {
        if IsPrefix(path + [e.ch], w) {
          assert |w| > |path| && w[|path|] == e.ch && IsPrefix(path, w);
        }
        if |w| > |path| && IsPrefix(path, w) && w[|path|] == e.ch {
          assert w[..|path| + 1] == path + [e.ch];
        }
      }
      NoDuplicatesConcat(here, CollectFrom(n, i + 1));
    }
  }

  /** Following p keeps validity, and the words stored below p are the stored words that extend p. */
  lemma {:induction false} DescendContains(n: Node, p: string, w: string)
    requires IsPrefix(p, w)
    ensures Contains(n, w) <==> Descend(n, p).Some? && Contains(Descend(n, p).value, w[|p|..])
    decreases |p|
  {
    if p != [] {
      ContainsStep(n, w);
      if Child(n, p[0]).Some? {
        DescendContains(Child(n, p[0]).value, p[1..], w[1..]);
        assert w[1..][|p| - 1..] == w[|p|..];
      }
    }
  }

  lemma {:induction false} DescendValid(n: Node, path: string, p: string)
    requires Valid(n, path) && Descend(n, p).Some?
    ensures Valid(Descend(n, p).value, path + p)
    decreases |p|
  {
    if p == [] {
      assert path + p == path;
    } else {
      var k := EdgeIndex(n.edges, p[0]).value;
      assert Valid(n.edges[k].child, path + [p[0]]);
      DescendValid(n.edges[k].child, path + [p[0]], p[1..]);
      assert path + [p[0]] + p[1..] == path + p;
    }
  }

  /**
   FindPrefix on a valid trie returns exactly the stored words that start
   with the prefix, each once.
   */
  lemma FindPrefixExact(root: Node, prefix: string)
    requires Valid(root, [])
    ensures forall w :: w in FindPrefix(root, prefix) <==> Contains(root, w) && IsPrefix(prefix, w)
    ensures NoDuplicates(FindPrefix(root, prefix))
  {
    match Descend(root, prefix)
    case None =>
      forall w | IsPrefix(prefix, w) ensures !Contains(root, w) {
        DescendContains(root, prefix, w);
      }
    case Some(m) =>
      DescendValid(root, [], prefix);
      assert [] + prefix == prefix;
      CollectWordsExact(m, prefix);
      forall w | IsPrefix(prefix, w) ensures Contains(root, w) <==> Contains(m, w[|prefix|..]) {
        DescendContains(root, prefix, w);
      }
  }
}
