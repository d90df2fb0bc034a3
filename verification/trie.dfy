/**
 Model of the completion trie (TrieNode in src/completion.rs).

 Each node has children keyed by character, a terminal flag, and on terminal
 nodes the full word that ends there. The children map is modelled as an
 association list of edges with distinct characters; its order stands for the
 unspecified iteration order of the source's hash map.
 */
module Trie {
  import opened Wrappers

  datatype Edge = Edge(ch: char, child: Node)

  datatype Node = Node(edges: seq<Edge>, isEnd: bool, word: string)

  /** An empty node: no children, not terminal, empty word. */
  function New(): Node {
    Node([], false, "")
  }

  /** Position of the edge labelled c, if there is one. */
  function EdgeIndex(edges: seq<Edge>, c: char): (r: Option<nat>)
    ensures r.Some? ==> r.value < |edges| && edges[r.value].ch == c
    ensures r.Some? ==> forall k :: 0 <= k < r.value ==> edges[k].ch != c
    ensures r.None? ==> forall k :: 0 <= k < |edges| ==> edges[k].ch != c
    decreases |edges|
  {
    if edges == [] then None
    else if edges[0].ch == c then Some(0)
    else
      match EdgeIndex(edges[1..], c)
      case None => None
      case Some(k) => Some(k + 1)
  }

  /** The child reached by character c. */
  function Child(n: Node, c: char): Option<Node> {
    match EdgeIndex(n.edges, c)
    case None => None
    case Some(k) => Some(n.edges[k].child)
  }

  /** The node reached by following p from n; None as soon as a character has no child. */
  function Descend(n: Node, p: string): Option<Node>
    decreases |p|
  {
    if p == [] then Some(n)
    else
      match Child(n, p[0])
      case None => None
      case Some(m) => Descend(m, p[1..])
  }

  /**
   Walks the characters of rest from n, creating missing children, and marks
   the node reached as terminal with word w.
   */
  function InsertAt(n: Node, rest: string, w: string): Node
    decreases |rest|
  {
    if rest == [] then n.(isEnd := true, word := w)
    else
      match EdgeIndex(n.edges, rest[0])
      case Some(k) =>
        n.(edges := n.edges[k := Edge(rest[0], InsertAt(n.edges[k].child, rest[1..], w))])
      case None =>
        n.(edges := n.edges + [Edge(rest[0], InsertAt(New(), rest[1..], w))])
  }

  /** p is a prefix of w. */
  predicate IsPrefix(p: string, w: string) {
    |p| <= |w| && w[..|p|] == p
  }

  /** w is stored under n: following it reaches a terminal node. */
  predicate Contains(n: Node, w: string) {
    match Descend(n, w)
    case Some(m) => m.isEnd
    case None => false
  }

  /** Inserts a word, starting from the root. */
  function Insert(root: Node, w: string): Node {
    InsertAt(root, w, w)
  }

  /** The words stored on the terminal nodes under n, n's own first, in pre-order. */
  function CollectWords(n: Node): seq<string>
    decreases n, 1
  {
    (if n.isEnd then [n.word] else []) + CollectFrom(n, 0)
  }

  /** The words collected under the children of n from the i-th edge on. */
  function CollectFrom(n: Node, i: nat): seq<string>
    requires i <= |n.edges|
    decreases n, 0, |n.edges| - i
  {
    if i == |n.edges| then [] else CollectWords(n.edges[i].child) + CollectFrom(n, i + 1)
  }

  /** All stored words that start with prefix; empty as soon as prefix leaves the trie. */
  function FindPrefix(root: Node, prefix: string): seq<string> {
    match Descend(root, prefix)
    case None => []
    case Some(m) => CollectWords(m)
  }
}
