/**
 * `TireTreeFilter`: the trie backend whose state is a root node labelled
 * `' '`; the root entries are its children. Its node class is used exactly
 * as `DfaNode` is (`find`, `addChild`, `isLeaf`, `isWord`, `setWord`) and is
 * modelled by it.
 */
module Tire {
  import opened JavaStrings
  import opened Words
  import opened Scan
  import opened TrieSpec
  import opened Trie
  import opened TrieRoot

  class TireTreeFilter {
    /** The root node, `new TireTreeNode(' ')`. */
    const root: DfaNode
    /** The stored (trimmed, accepted) words. */
    ghost var Words: set<string>
    /** Every node below the root, by the path that leads to it. */
    ghost var nodes: map<string, DfaNode>

    ghost predicate Valid()
      reads this, root, nodes.Values
    {
      WellFormed(root.ChildMap(), nodes, Words) && Apart(root, nodes)
    }

    /** `createState` gives the childless root and `load` puts every word of
        the set, in whatever order the set yields them. */
    constructor (wordSet: WordsCategory)
      ensures Valid() && Words == StoredWords(wordSet.words)
      ensures root.ch == ' ' && fresh(root)
      ensures forall p {:trigger nodes[p]} :: p in nodes ==> fresh(nodes[p])
    {
      root := new DfaNode(' ');
      Words := {};
      nodes := map[];
      new;
      Load(wordSet.words);
    }

    /** `load`: puts every word of the set, in whatever order the set
        yields them. */
    method Load(words: set<string>)
      requires Valid() && Words == {} && nodes == map[]
      modifies this, root
      ensures Valid() && Words == StoredWords(words)
      ensures forall p {:trigger nodes[p]} :: p in nodes ==> fresh(nodes[p])
    {
      var rest := words;
      ghost var done := {};
      while rest != {}
        invariant done + rest == words
        invariant Valid() && Words == StoredWords(done)
        invariant forall p {:trigger nodes[p]} :: p in nodes ==> fresh(nodes[p])
        decreases |rest|
      {
        var w :| w in rest;
        var _ := PutOneWord(w);
        StoredWordsAdd(done, w);
        rest, done := rest - {w}, done + {w};
      }
    }

    /** `putOneWord`: a blank word, or one shorter than two characters once
        trimmed, is refused and nothing changes. Otherwise the root child
        for the first character is found or added, the path of the rest is
        extended and its last node is marked as a word. */
    method PutOneWord(word: string) returns (ok: bool)
      requires Valid()
      modifies this, root, nodes.Values
      ensures Valid()
      ensures ok == Accepted(word)
      ensures Words == if ok then old(Words) + {Trim(word)} else old(Words)
      ensures !ok ==> unchanged(this, root) && unchanged(old(nodes.Values))
      ensures ok ==> Trim(word) in nodes && nodes[Trim(word)].word
      ensures forall p {:trigger old(nodes)[p]} :: p in old(nodes) ==> p in nodes && nodes[p] == old(nodes)[p]
      ensures forall p {:trigger nodes[p]} :: p in nodes && p !in old(nodes) ==> fresh(nodes[p])
    {
      if IsBlank(word) {
        return false;
      }
      var w := Trim(word);
      if |w| < 2 {
        return false;
      }
      ok := true;
      ghost var nodes';
      nodes' := InsertUnder(root, w, nodes, Words);
      nodes, Words := nodes', Words + {w};
    }

    /** `processor`: nothing is scanned when the content is blank or shorter
        than two characters once trimmed; otherwise the trimmed content is
        scanned from the children of the root. */
    method Processor(part: bool, content: string, stop: string -> bool) returns (r: bool, calls: seq<string>)
      requires Valid()
      ensures calls == UpTo(ScanReports(Words, part, content), stop)
      ensures r == AnyStop(ScanReports(Words, part, content), stop)
    {
      if IsBlank(content) {
        return false, [];
      }
      var t := Trim(content);
      if |t| < 2 {
        return false, [];
      }
      r, calls := ScanTrie(root.ChildMap(), t, part, stop, nodes, Words);
    }
  }

  /** The root is not one of the nodes below it. */
  ghost predicate Apart(root: DfaNode, nodes: map<string, DfaNode>) {
    forall p {:trigger nodes[p]} :: p in nodes ==> nodes[p] != root
  }

  /** The Tire `putOneWord` once the word `w` is trimmed and accepted:
      `root.find` of the first character, and when it is null a new child
      added to the root; then the rest of the path is extended and its last
      node marked. */
  method InsertUnder(root: DfaNode, w: string, ghost nodes: map<string, DfaNode>, ghost ws: set<string>)
    returns (ghost nodes': map<string, DfaNode>)
    requires |w| >= 2 && WellFormed(root.ChildMap(), nodes, ws) && Apart(root, nodes)
    modifies root, nodes.Values
    ensures WellFormed(root.ChildMap(), nodes', ws + {w}) && Apart(root, nodes')
    ensures w in nodes' && nodes'[w].word
    ensures forall p {:trigger nodes[p]} :: p in nodes ==> p in nodes' && nodes'[p] == nodes[p]
    ensures forall p {:trigger nodes'[p]} :: p in nodes' && p !in nodes ==> fresh(nodes'[p])
  {
    assert [w[0]] == w[..1];
    var first;
    ghost var nodes1;
    first, nodes1 := FindOrAddChild(root, w[0], nodes, ws);
    nodes' := GrowWord(root.ChildMap(), first, w, nodes, nodes1, ws);
    forall p | p in nodes ensures p in nodes' && nodes'[p] == nodes[p] {
      assert nodes1[p] == nodes[p];
    }
    forall p | p in nodes' ensures nodes'[p] != root {
      if p !in nodes1 {
        assert fresh(nodes'[p]);
      } else {
        assert nodes'[p] == nodes1[p];
      }
    }
  }

  /** `root.find(c)`, and when it is null a new node added as a child of
      the root: the root entry of a word's first character. */
  method FindOrAddChild(root: DfaNode, c: char, ghost nodes: map<string, DfaNode>, ghost ws: set<string>)
    returns (first: DfaNode, ghost nodes': map<string, DfaNode>)
    requires Shape(nodes, ws) && LongWords(ws) && RootEntries(root.ChildMap(), nodes) && Apart(root, nodes)
    modifies root
    ensures [c] in nodes' && nodes'[[c]] == first
    ensures forall p {:trigger p in nodes'} :: p in nodes' <==> p in nodes || p == [c]
    ensures forall p {:trigger nodes[p]} :: p in nodes ==> nodes'[p] == nodes[p]
    ensures [c] !in nodes ==> fresh(first)
    ensures Shape(nodes', ws) && RootEntries(root.ChildMap(), nodes') && Apart(root, nodes')
  {
    var found := root.Find(c);
    if found == null {
      first := new DfaNode(c);
      RootAdded(nodes, ws, c, first);
      root.AddChild(first);
      nodes' := nodes[[c] := first];
    } else {
      first, nodes' := found, nodes;
    }
  }
}
