/**
 * `DfaFilter`: the DFA backend. Its state is the map from a first character
 * to the root node of the words starting with it (`HashMap<Character,
 * DfaNode>`); `putOneWord` threads a word into the trie and `processor`
 * walks the trie from every start position of the trimmed content.
 */
module Dfa {
  import opened JavaStrings
  import opened Words
  import opened Scan
  import opened TrieSpec
  import opened Trie
  import opened TrieRoot

  class DfaFilter {
    /** The root entries: first character to node. */
    var state: map<char, DfaNode>
    /** The stored (trimmed, accepted) words. */
    ghost var Words: set<string>
    /** Every node of the trie, by the path that leads to it. */
    ghost var nodes: map<string, DfaNode>

    ghost predicate Valid()
      reads this, nodes.Values
    {
      WellFormed(state, nodes, Words)
    }

    /** The constructor of the base class: `createState` gives an empty map
        and `load` puts every word of the set, in whatever order the set
        yields them. */
    constructor (wordSet: WordsCategory)
      ensures Valid() && Words == StoredWords(wordSet.words)
      ensures forall p {:trigger nodes[p]} :: p in nodes ==> fresh(nodes[p])
    {
      state := map[];
      Words := {};
      nodes := map[];
      new;
      Load(wordSet.words);
    }

    /** `load`: puts every word of the set, in whatever order the set
        yields them. */
    method Load(words: set<string>)
      requires Valid() && Words == {} && nodes == map[]
      modifies this
      ensures Valid() && Words == StoredWords(words)
      ensures forall p {:trigger nodes[p]} :: p in nodes ==> fresh(nodes[p])
    {
      var rest := words;
      ghost var done := {};
      while rest != {}
        invariant done + rest == words
        invariant Valid() && Words == StoredWords(done)
        invariant forall p {:trigger nodes[p]} :: p in nodes ==> fresh(nodes[p])
        decreases |rest|
      {
        var w :| w in rest;
        var _ := PutOneWord(w);
        StoredWordsAdd(done, w);
        rest, done := rest - {w}, done + {w};
      }
    }

    /** `putOneWord`: a blank word, or one shorter than two characters once
        trimmed, is refused and nothing changes. Otherwise the root entry
        for the first character is found or created, the path of the rest
        is extended (reusing the nodes already there) and its last node is
        marked as a word. */
    method PutOneWord(word: string) returns (ok: bool)
      requires Valid()
      modifies this, nodes.Values
      ensures Valid()
      ensures ok == Accepted(word)
      ensures Words == if ok then old(Words) + {Trim(word)} else old(Words)
      ensures !ok ==> unchanged(this) && unchanged(old(nodes.Values))
      ensures ok ==> Trim(word) in nodes && nodes[Trim(word)].word
      ensures forall p {:trigger old(nodes)[p]} :: p in old(nodes) ==> p in nodes && nodes[p] == old(nodes)[p]
      ensures forall p {:trigger nodes[p]} :: p in nodes && p !in old(nodes) ==> fresh(nodes[p])
    {
      if IsBlank(word) {
        return false;
      }
      var w := Trim(word);
      if |w| < 2 {
        return false;
      }
      ok := true;
      ghost var nodes';
      state, nodes' := InsertWord(state, w, nodes, Words);
      nodes, Words := nodes', Words + {w};
    }

    /** `processor`: nothing is scanned when the content is blank or shorter
        than two characters once trimmed; otherwise the trimmed content is
        scanned from the state map. */
    method Processor(part: bool, content: string, stop: string -> bool) returns (r: bool, calls: seq<string>)
      requires Valid()
      ensures calls == UpTo(ScanReports(Words, part, content), stop)
      ensures r == AnyStop(ScanReports(Words, part, content), stop)
    {
      if IsBlank(content) {
        return false, [];
      }
      var t := Trim(content);
      if |t| < 2 {
        return false, [];
      }
      r, calls := ScanTrie(state, t, part, stop, nodes, Words);
    }

    /** Root entries are never words and never leaves: every stored word is
        at least two characters long. */
    lemma RootEntriesInner(c: char)
      requires Valid() && c in state
      ensures !state[c].word && !state[c].IsLeaf()
    {
      assert [c] in nodes;
      assert Begins([c], Words);
      var w :| w in Words && 1 <= |w| && w[..1] == [c];
      assert Extends([c], Words);
      LeafMeaning(nodes, Words, [c]);
    }
  }
}
