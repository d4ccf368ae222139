/** A prefix tree of strings: each node maps a character to a child and
    records whether a word ends there (string-algorithms/trie.py, the second
    `TrieNode`/`Trie` definition). Nodes are values: a trie never shares a
    node between two parents, so rebuilding the path from the root is what
    the in-place update of `children` and `is_end_of_word` amounts to. */
module Tries {
  datatype TrieNode = TrieNode(children: map<char, TrieNode>, isEndOfWord: bool)

  /** A fresh node: no children, no word ends here. */
  function NewNode(): TrieNode {
    TrieNode(map[], false)
  }

  /** `insert_helper`: walk `word` from index `i`, adding missing children,
      and mark the node reached at the end. */
  function InsertHelper(node: TrieNode, word: string, i: nat): TrieNode
    requires i <= |word|
    decreases |word| - i
  {
    if i == |word| then node.(isEndOfWord := true)
    else
      var c := word[i];
      var child := if c in node.children then node.children[c] else NewNode();
      node.(children := node.children[c := InsertHelper(child, word, i + 1)])
  }

  /** `search_helper`: does a word end at the node reached by `word[i..]`? */
  function SearchHelper(node: TrieNode, word: string, i: nat): bool
    requires i <= |word|
    decreases |word| - i
  {
    if i == |word| then node.isEndOfWord
    else if word[i] !in node.children then false
    else SearchHelper(node.children[word[i]], word, i + 1)
  }

  /** `starts_with_helper`: can `prefix[i..]` be followed from the node? */
  function StartsWithHelper(node: TrieNode, prefix: string, i: nat): bool
    requires i <= |prefix|
    decreases |prefix| - i
  {
    if i == |prefix| then true
    else if prefix[i] !in node.children then false
    else StartsWithHelper(node.children[prefix[i]], prefix, i + 1)
  }

  /** A fresh node holds no word, and only the empty prefix can be followed. */
  lemma NewNodeEmpty(v: string, j: nat)
    requires j <= |v|
    ensures !SearchHelper(NewNode(), v, j)
    ensures StartsWithHelper(NewNode(), v, j) <==> j == |v|
  {
  }

  /** After inserting `w[i..]`, a word `v[j..]` is found exactly when it is
      the inserted one or was found before. */
  lemma {:induction false} InsertThenSearch(node: TrieNode, w: string, i: nat, v: string, j: nat)
    requires i <= |w| && j <= |v|
    ensures SearchHelper(InsertHelper(node, w, i), v, j) <==> w[i..] == v[j..] || SearchHelper(node, v, j)
    decreases |w| - i
  {
    if i < |w| && j < |v| {
      assert w[i..] == [w[i]] + w[i + 1..];
      assert v[j..] == [v[j]] + v[j + 1..];
      var c := w[i];
      if v[j] == c {
        var child := if c in node.children then node.children[c] else NewNode();
        InsertThenSearch(child, w, i + 1, v, j + 1);
        if c !in node.children {
          NewNodeEmpty(v, j + 1);
        }
      }
    }
  }

  /** After inserting `w[i..]`, a prefix `p[j..]` can be followed exactly when
      it is a prefix of the inserted word or could be followed before. */
  lemma {:induction false} InsertThenStartsWith(node: TrieNode, w: string, i: nat, p: string, j: nat)
    requires i <= |w| && j <= |p|
    ensures StartsWithHelper(InsertHelper(node, w, i), p, j) <==> p[j..] <= w[i..] || StartsWithHelper(node, p, j)
    decreases |w| - i
  {
    if i < |w| && j < |p| {
      assert w[i..] == [w[i]] + w[i + 1..];
      assert p[j..] == [p[j]] + p[j + 1..];
      var c := w[i];
      if p[j] == c {
        var child := if c in node.children then node.children[c] else NewNode();
        InsertThenStartsWith(child, w, i + 1, p, j + 1);
        if c !in node.children {
          NewNodeEmpty(p, j + 1);
        }
      }
    }
  }

  /** Inserting the same word again changes nothing. */
  lemma {:induction false} InsertIdempotent(node: TrieNode, w: string, i: nat)
    requires i <= |w|
    ensures InsertHelper(InsertHelper(node, w, i), w, i) == InsertHelper(node, w, i)
    decreases |w| - i
  {
    if i < |w| {
      var c := w[i];
      var child := if c in node.children then node.children[c] else NewNode();
      InsertIdempotent(child, w, i + 1);
    }
  }

  /** The trie object, with the set of words inserted so far as its meaning. */
  class Trie {
    var root: TrieNode
    ghost var words: set<string>

    /** The root answers `search` for exactly the inserted words, and
        `starts_with` for exactly their prefixes (the empty one included). */
    ghost predicate Valid()
      reads this
    {
      && (forall v :: SearchHelper(root, v, 0) <==> v in words)
      && (forall p :: StartsWithHelper(root, p, 0) <==> p == [] || exists w :: w in words && p <= w)
    }

    constructor ()
      ensures Valid() && words == {}
      ensures root == NewNode()
    {
      root := NewNode();
      words := {};
      forall v
        ensures !SearchHelper(NewNode(), v, 0)
      {
        NewNodeEmpty(v, 0);
      }
      forall p
        ensures StartsWithHelper(NewNode(), p, 0) <==> p == []
      {
        NewNodeEmpty(p, 0);
      }
    }

    /** `insert`: afterwards `word` is in the set, and nothing else changed. */
    method Insert(word: string)
      requires Valid()
      modifies this
      ensures Valid() && words == old(words) + {word}
      ensures root == InsertHelper(old(root), word, 0)
    {
      ghost var before := root;
      root := InsertHelper(root, word, 0);
      words := words + {word};
      forall v
        ensures SearchHelper(root, v, 0) <==> v in words
      {
        InsertThenSearch(before, word, 0, v, 0);
        assert word[0..] == word && v[0..] == v;
      }
      forall p
        ensures StartsWithHelper(root, p, 0) <==> p == [] || exists w :: w in words && p <= w
      {
        InsertThenStartsWith(before, word, 0, p, 0);
        assert word[0..] == word && p[0..] == p;
      }
    }

    /** `search`: is `word` one of the inserted words? */
    method Search(word: string) returns (found: bool)
      requires Valid()
      ensures found <==> word in words
    {
      found := SearchHelper(root, word, 0);
    }

    /** `starts_with`: is `prefix` empty or a prefix of an inserted word? */
    method StartsWith(prefix: string) returns (found: bool)
      requires Valid()
      ensures found <==> prefix == [] || exists w :: w in words && prefix <= w
    {
      found := StartsWithHelper(root, prefix, 0);
    }
  }

  /** The overlapping-words scenario: after inserting "app" and "apple",
      both are found, "appl" is not, but "appl" is a prefix. */
  method OverlappingWords() returns (app: bool, apple: bool, appl: bool, applPrefix: bool)
    ensures app && apple && !appl && applPrefix
  {
    var trie := new Trie();
    trie.Insert("app");
    trie.Insert("apple");
    app := trie.Search("app");
    apple := trie.Search("apple");
    appl := trie.Search("appl");
    assert "appl" <= "apple";
    applPrefix := trie.StartsWith("appl");
  }

  /** Inserting the empty string marks the root, so it is then found. */
  method EmptyWord() returns (found: bool, prefix: bool)
    ensures found && prefix
  {
    var trie := new Trie();
    trie.Insert("");
    found := trie.Search("");
    prefix := trie.StartsWith("");
  }
}
