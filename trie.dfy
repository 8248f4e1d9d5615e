/** The dictionary as a trie: each node says whether the letters leading to
    it spell a word, and maps letters to child nodes, in increasing letter
    order (the iteration order of the source's std::map). */
module Trie {
  import opened MoveTypes

  datatype Trie = Node(isFinal: bool, nexts: seq<(char, Trie)>)

  /** The letters of every node are strictly increasing, so each letter
      leads to at most one child. */
  ghost predicate WellFormed(t: Trie)
    decreases t
  {
    (forall i, j :: 0 <= i < j < |t.nexts| ==> t.nexts[i].0 < t.nexts[j].0)
    && forall i :: 0 <= i < |t.nexts| ==> WellFormed(t.nexts[i].1)
  }

  /** The index of the child reached by letter c, searching from index k on. */
  function ChildFrom(t: Trie, c: char, k: nat): (r: Option<nat>)
    requires k <= |t.nexts|
    ensures r.Some? ==> k <= r.value < |t.nexts| && t.nexts[r.value].0 == c
    ensures r.None? ==> forall i :: k <= i < |t.nexts| ==> t.nexts[i].0 != c
    decreases |t.nexts| - k
  {
    if k == |t.nexts| then None
    else if t.nexts[k].0 == c then Some(k)
    else ChildFrom(t, c, k + 1)
  }

  /** nexts.find(c): the index of the child reached by letter c, if any. */
  function ChildIndex(t: Trie, c: char): (r: Option<nat>)
    ensures r.Some? ==> r.value < |t.nexts| && t.nexts[r.value].0 == c
    ensures r.None? ==> forall i :: 0 <= i < |t.nexts| ==> t.nexts[i].0 != c
  {
    ChildFrom(t, c, 0)
  }

  /** In a well-formed node the child found for c is the only one with letter c. */
  lemma ChildIndexUnique(t: Trie, c: char, i: nat)
    requires WellFormed(t) && i < |t.nexts| && t.nexts[i].0 == c
    ensures ChildIndex(t, c) == Some(i)
  {
  }

  /** The child reached by letter c, if any. */
  function Child(t: Trie, c: char): Option<Trie>
  {
    match ChildIndex(t, c)
    case None => None
    case Some(i) => Some(t.nexts[i].1)
  }

  /** find_prefix: the node reached from the root by the letters of word,
      or None (a null pointer in the source) when the walk leaves the trie. */
  function FindPrefix(root: Trie, word: string): Option<Trie>
    decreases |word|
  {
    if |word| == 0 then Some(root)
    else match Child(root, word[0])
      case None => None
      case Some(n) => FindPrefix(n, word[1..])
  }

  /** is_word: the walk ends on a final node. */
  predicate IsWord(root: Trie, word: string) {
    match FindPrefix(root, word)
    case None => false
    case Some(n) => n.isFinal
  }

  /** Every word is in the dictionary. */
  predicate AllWords(root: Trie, words: seq<string>) {
    forall j :: 0 <= j < |words| ==> IsWord(root, words[j])
  }

  /** Walking one more letter from the node of a prefix is following one
      child edge: the node of word + [c] is the c-child of the node of word. */
  lemma {:induction false} FindPrefixSnoc(root: Trie, word: string, c: char)
    ensures FindPrefix(root, word + [c]) ==
            match FindPrefix(root, word)
            case None => None
            case Some(n) => Child(n, c)
    decreases |word|
  {
    var w := word + [c];
    if |word| == 0 {
      assert w[1..] == [];
    } else {
      assert w[0] == word[0] && w[1..] == word[1..] + [c];
      match Child(root, word[0])
      case None =>
      case Some(n) => FindPrefixSnoc(n, word[1..], c);
    }
  }

  /** The nodes of a well-formed trie are well-formed. */
  lemma {:induction false} FindPrefixWellFormed(root: Trie, word: string)
    requires WellFormed(root) && FindPrefix(root, word).Some?
    ensures WellFormed(FindPrefix(root, word).value)
    decreases |word|
  {
    if |word| > 0 {
      var i := ChildIndex(root, word[0]).value;
      FindPrefixWellFormed(root.nexts[i].1, word[1..]);
    }
  }

  /** Every prefix of a word that the trie walks also walks: once the walk
      leaves the trie it never comes back. */
  lemma {:induction false} FindPrefixOfPrefix(root: Trie, word: string, k: nat)
    requires k <= |word| && FindPrefix(root, word).Some?
    ensures FindPrefix(root, word[..k]).Some?
    decreases |word|
  {
    if k > 0 {
      var n := Child(root, word[0]).value;
      assert word[..k][0] == word[0] && word[..k][1..] == word[1..][..k - 1];
      FindPrefixOfPrefix(n, word[1..], k - 1);
    }
  }
}
