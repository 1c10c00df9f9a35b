/**
 * `DfaNode`, the trie node of the DFA backend (the Tire backend's
 * `TireTreeNode` is used the same way and is modelled by the same class), and
 * the two loops both trie backends run over it: extending a path for a new
 * word, and walking from a start position.
 *
 * The ghost map `nodes` names every node by the path of characters that
 * leads to it from the root entries.
 */
module Trie {
  import opened Wrappers
  import opened Scan
  import opened TrieSpec

  class DfaNode {
    const ch: char
    var word: bool
    var childs: Option<map<char, DfaNode>>

    /** `new DfaNode(c)`: not a word, no child map yet. */
    constructor (c: char)
      ensures ch == c && !word && childs == None
    {
      ch := c;
      word := false;
      childs := None;
    }

    /** `isLeaf`: the child map is missing or empty. */
    predicate IsLeaf()
      reads this
    {
      childs.None? || childs.value == map[]
    }

    predicate HasChild(c: char)
      reads this
    {
      childs.Some? && c in childs.value
    }

    /** The children, an absent map read as empty. */
    function ChildMap(): map<char, DfaNode>
      reads this
    {
      if childs.None? then map[] else childs.value
    }

    /** `setWord`; `isWord` reads the field back. */
    method SetWord(b: bool)
      modifies this`word
      ensures word == b
    {
      word := b;
    }

    /** `addChild`: creates the map when missing and stores the child under
        its own character, replacing an earlier child with that character. */
    method AddChild(child: DfaNode)
      modifies this`childs
      ensures childs == Some(old(ChildMap())[child.ch := child])
      ensures !IsLeaf() && HasChild(child.ch) && childs.value[child.ch] == child
      ensures forall c :: c != child.ch ==> (HasChild(c) <==> old(HasChild(c)))
    {
      if childs.None? {
        childs := Some(map[]);
      }
      childs := Some(childs.value[child.ch := child]);
      assert child.ch in childs.value;
    }

    /** `removeChild`: drops the entry for the child's character only; nothing
        happens when there is no child map. */
    method RemoveChild(child: DfaNode)
      modifies this`childs
      ensures old(childs).None? ==> childs.None?
      ensures old(childs).Some? ==> childs == Some(old(childs.value) - {child.ch})
      ensures !HasChild(child.ch)
      ensures forall c :: c != child.ch ==> (HasChild(c) <==> old(HasChild(c)))
    {
      if childs.Some? {
        childs := Some(childs.value - {child.ch});
      }
    }

    /** `getChilds().get(c)` on a node with a child map, and `find(c)` of the
        Tire node: the child for `c`, or null. */
    method Find(c: char) returns (r: DfaNode?)
      ensures r != null <==> HasChild(c)
      ensures r != null ==> r == childs.value[c]
    {
      if childs.Some? && c in childs.value {
        r := childs.value[c];
      } else {
        r := null;
      }
    }
  }

  /** A node is a leaf exactly when it has no child. */
  lemma LeafIffChildless(n: DfaNode)
    ensures n.IsLeaf() <==> forall c :: !n.HasChild(c)
  {
    if !n.IsLeaf() {
      var c :| c in n.childs.value;
      assert n.HasChild(c);
    }
  }

  /** The shape of the trie below the root entries: a node per path, prefix
      closed, each node labelled with the last character of its path, marked
      as a word exactly for the words of `ws`, with a child for `c` exactly
      when the path extended by `c` has a node, and no node on two paths. */
  ghost predicate Shape(nodes: map<string, DfaNode>, ws: set<string>)
    reads nodes.Values
  {
    Labels(nodes) && Closed(nodes) && Marks(nodes, ws) && Links(nodes) && Distinct(nodes)
  }

  ghost predicate Labels(nodes: map<string, DfaNode>) {
    forall p {:trigger nodes[p]} :: p in nodes ==> p != [] && nodes[p].ch == p[|p| - 1]
  }

  ghost predicate Closed(nodes: map<string, DfaNode>) {
    forall p, c :: p + [c] in nodes && p != [] ==> p in nodes
  }

  ghost predicate Marks(nodes: map<string, DfaNode>, ws: set<string>)
    reads nodes.Values
  {
    && (forall p {:trigger nodes[p]} :: p in nodes ==> (nodes[p].word <==> p in ws))
    && (forall x :: x in ws ==> x in nodes)
  }

  ghost predicate Links(nodes: map<string, DfaNode>)
    reads nodes.Values
  {
    && (forall p, c {:trigger nodes[p].HasChild(c)} {:trigger p + [c]} ::
          p in nodes ==> (nodes[p].HasChild(c) <==> p + [c] in nodes))
    && (forall p, c {:trigger nodes[p + [c]]} ::
          p in nodes && p + [c] in nodes ==> nodes[p].childs.value[c] == nodes[p + [c]])
  }

  ghost predicate Distinct(nodes: map<string, DfaNode>) {
    forall p, q :: p in nodes && q in nodes && p != q ==> nodes[p] != nodes[q]
  }

  /** The nodes are exactly those of the non-empty prefixes of stored words. */
  ghost predicate Keys(nodes: map<string, DfaNode>, ws: set<string>) {
    forall p {:trigger Begins(p, ws)} :: p in nodes <==> p != [] && Begins(p, ws)
  }

  /** The root entries (the DFA state map, or the children of the Tire root)
      are the one-character paths. */
  ghost predicate RootEntries(root: map<char, DfaNode>, nodes: map<string, DfaNode>) {
    && (forall c :: c in root <==> [c] in nodes)
    && (forall c :: c in root ==> root[c] == nodes[[c]])
  }

  /** In a well-formed trie, `isLeaf` tells a path that no stored word
      extends (and `isWord` a stored word, by `Shape`). */
  lemma LeafMeaning(nodes: map<string, DfaNode>, ws: set<string>, p: string)
    requires Marks(nodes, ws) && Links(nodes) && Keys(nodes, ws) && p in nodes
    ensures nodes[p].IsLeaf() <==> !Extends(p, ws)
  {
    LeafIffChildless(nodes[p]);
    if Extends(p, ws) {
      var w :| w in ws && |p| < |w| && w[..|p|] == p;
      ExtendsChild(nodes, ws, p, w);
    } else {
      forall c ensures !nodes[p].HasChild(c) {
        NoChildBeyond(ws, p, c);
      }
    }
  }

  lemma ExtendsChild(nodes: map<string, DfaNode>, ws: set<string>, p: string, w: string)
    requires Marks(nodes, ws) && Links(nodes) && Keys(nodes, ws) && p in nodes
    requires w in ws && |p| < |w| && w[..|p|] == p
    ensures nodes[p].HasChild(w[|p|])
  {
    BeginsChild(ws, p, w);
    assert p + [w[|p|]] in nodes;
  }

  lemma BeginsChild(ws: set<string>, p: string, w: string)
    requires w in ws && |p| < |w| && w[..|p|] == p
    ensures Begins(p + [w[|p|]], ws)
  {
    var q := p + [w[|p|]];
    assert w[..|q|] == q;
  }

  lemma NoChildBeyond(ws: set<string>, p: string, c: char)
    requires !Extends(p, ws)
    ensures !Begins(p + [c], ws)
  {
    forall w | w in ws && |p + [c]| <= |w| ensures w[..|p + [c]|] != p + [c] {
      assert w[..|p + [c]|][..|p|] == w[..|p|];
    }
  }

  /** Extends the path of `w[0]` (whose node `first` exists) by the rest of
      `w`: the loop of `putOneWord` after the first character. Existing nodes
      on the path are reused, missing ones are created, and the last node is
      marked as a word. */
  method ExtendPath(first: DfaNode, w: string, ghost nodes0: map<string, DfaNode>, ghost ws: set<string>)
    returns (ghost nodes: map<string, DfaNode>)
    requires |w| >= 2 && [w[0]] in nodes0 && nodes0[[w[0]]] == first
    requires Shape(nodes0, ws)
    modifies nodes0.Values
    ensures Shape(nodes, ws + {w})
    ensures Grown(nodes0, nodes, w, |w|)
    ensures forall p {:trigger nodes[p]} :: p in nodes && p !in nodes0 ==> fresh(nodes[p])
  {
    var node;
    node, nodes := ExtendInner(first, w, nodes0, ws);
    // the last character: the node reached is marked as a word
    var last := |w| - 1;
    PrefixStep(w, last);
    ghost var prev := nodes;
    node, nodes := ExtendStep(node, w[..last], w[last], w, nodes, ws);
    GrownStep(nodes0, prev, nodes, w, last);
    MarkWord(node, w, nodes, ws);
  }

  /** The path of every character of `w` but the last, from `first`. */
  method ExtendInner(first: DfaNode, w: string, ghost nodes0: map<string, DfaNode>, ghost ws: set<string>)
    returns (node: DfaNode, ghost nodes: map<string, DfaNode>)
    requires |w| >= 2 && [w[0]] in nodes0 && nodes0[[w[0]]] == first
    requires Shape(nodes0, ws)
    modifies nodes0.Values
    ensures w[..|w| - 1] in nodes && node == nodes[w[..|w| - 1]]
    ensures Shape(nodes, ws)
    ensures Grown(nodes0, nodes, w, |w| - 1)
    ensures forall p {:trigger nodes[p]} :: p in nodes && p !in nodes0 ==> fresh(nodes[p])
  {
    node := first;
    nodes := nodes0;
    assert w[..1] == [w[0]];
    for i := 1 to |w| - 1
      invariant w[..i] in nodes && node == nodes[w[..i]]
      invariant Shape(nodes, ws)
      invariant Grown(nodes0, nodes, w, i)
      invariant forall p {:trigger nodes[p]} :: p in nodes && p !in nodes0 ==> fresh(nodes[p])
    {
      PrefixStep(w, i);
      ghost var prev := nodes;
      node, nodes := ExtendStep(node, w[..i], w[i], w[..i + 1], nodes, ws);
      GrownStep(nodes0, prev, nodes, w, i);
    }
  }

  /** A prefix one character longer. */
  lemma PrefixStep(w: string, i: nat)
    requires i < |w|
    ensures w[..i + 1] == w[..i] + [w[i]]
    ensures i + 1 == |w| ==> w[..i + 1] == w
  {
  }

  /** `nodes` is `nodes0` plus nodes, created since, for the prefixes of `w`
      up to length `i`. */
  ghost predicate Grown(nodes0: map<string, DfaNode>, nodes: map<string, DfaNode>, w: string, i: nat) {
    && i <= |w|
    && (forall p {:trigger nodes0[p]} :: p in nodes0 ==> p in nodes && nodes[p] == nodes0[p])
    && (forall j {:trigger w[..j]} :: 1 <= j <= i ==> w[..j] in nodes)
    && (forall p {:trigger nodes[p]} :: p in nodes && p !in nodes0 ==>
          exists j {:trigger w[..j]} :: 1 <= j <= i && p == w[..j])
  }

  lemma GrownStep(nodes0: map<string, DfaNode>, prev: map<string, DfaNode>, nodes: map<string, DfaNode>, w: string, i: nat)
    requires i < |w| && Grown(nodes0, prev, w, i)
    requires w[..i + 1] in nodes && (forall r :: r in nodes <==> r in prev || r == w[..i + 1])
    requires forall r :: r in prev ==> nodes[r] == prev[r]
    ensures Grown(nodes0, nodes, w, i + 1)
  {
  }

  /** `node.setWord(true)` on the node of `w`. */
  method MarkWord(node: DfaNode, w: string, ghost nodes: map<string, DfaNode>, ghost ws: set<string>)
    requires Shape(nodes, ws) && w in nodes && nodes[w] == node
    modifies node`word
    ensures Shape(nodes, ws + {w})
  {
    node.SetWord(true);
    assert Marks(nodes, ws + {w}) by {
      forall p | p in nodes ensures nodes[p].word <==> p in ws + {w} {
        if p != w {
          assert nodes[p] != node;
        }
      }
    }
  }

  /** One turn of the loop: find or create the child for `c` and (re)attach
      it; `q` is the path extended by `c`. */
  method ExtendStep(node: DfaNode, p: string, c: char, q: string, ghost nodes0: map<string, DfaNode>, ghost ws: set<string>)
    returns (next: DfaNode, ghost nodes: map<string, DfaNode>)
    requires Shape(nodes0, ws) && p in nodes0 && nodes0[p] == node && q == p + [c]
    modifies node`childs
    ensures q in nodes && nodes[q] == next
    ensures forall r :: r in nodes <==> r in nodes0 || r == q
    ensures forall r :: r in nodes0 ==> nodes[r] == nodes0[r]
    ensures q !in nodes0 ==> fresh(next)
    ensures Shape(nodes, ws)
  {
    var found: DfaNode? := null;
    if !node.IsLeaf() {
      found := node.Find(c);
    }
    LeafIffChildless(node);
    if found == null {
      assert q !in nodes0;
      next, nodes := AttachNew(node, p, c, q, nodes0, ws);
    } else {
      next := found;
      assert q in nodes0;
      assert next.ch == c;
      node.AddChild(next);
      nodes := nodes0;
      assert old(node.ChildMap())[c := next] == old(node.ChildMap());
    }
  }

  /** The branch of `ExtendStep` that creates the node for `q`. */
  method AttachNew(node: DfaNode, p: string, c: char, q: string, ghost nodes0: map<string, DfaNode>, ghost ws: set<string>)
    returns (next: DfaNode, ghost nodes: map<string, DfaNode>)
    requires Shape(nodes0, ws) && p in nodes0 && nodes0[p] == node && q == p + [c] && q !in nodes0
    modifies node`childs
    ensures fresh(next) && nodes == nodes0[q := next]
    ensures Shape(nodes, ws)
  {
    next := new DfaNode(c);
    AddFreshChild(nodes0, ws, p, c);
    node.AddChild(next);
    nodes := nodes0[q := next];
    assert Labels(nodes) && Marks(nodes, ws) && Distinct(nodes);
    forall r, d | r + [d] in nodes && r != [] ensures r in nodes {
      if r + [d] == q {
        assert r == (r + [d])[..|r|] == q[..|q| - 1] == p;
      }
    }
    forall r, d | r in nodes
      ensures nodes[r].HasChild(d) <==> r + [d] in nodes
    {
      if r == q {
        assert |r + [d]| != |q|;
        assert q + [d] == p + [c] + [d];
      } else if r == p {
        if d != c {
          assert old(node.HasChild(d)) <==> p + [d] in nodes0;
          assert (p + [d])[|p|] != q[|p|];
        }
      } else {
        assert nodes[r] == nodes0[r] && nodes0[r] != node;
        assert nodes0[r].childs == old(nodes0[r].childs);
        assert old(nodes0[r].HasChild(d)) <==> r + [d] in nodes0;
        assert (r + [d])[..|r|] == r && q[..|p|] == p;
      }
    }
    forall r, d | r in nodes && r + [d] in nodes
      ensures nodes[r].childs.value[d] == nodes[r + [d]]
    {
      if r == p && d != c {
        assert old(node.childs.value[d]) == nodes0[p + [d]];
      } else if r != p {
        assert nodes[r] == nodes0[r] && nodes0[r] != node;
      }
    }
  }

  /** Nothing below a path without a node. */
  lemma AddFreshChild(nodes: map<string, DfaNode>, ws: set<string>, p: string, c: char)
    requires Shape(nodes, ws) && p in nodes && p + [c] !in nodes
    ensures p + [c] !in ws
    ensures forall d :: p + [c] + [d] !in nodes
  {
    assert p + [c] != [];
  }

  /** The inner loop of `processor` from a start whose root entry `start`
      exists and is not a leaf: follows the text down the trie, reporting
      each word end (only the first one with `part`), until the text leaves
      the trie, a leaf is reached or the text ends. `charCount` is the
      number of characters matched. */
  method WalkFrom(start: DfaNode, t: string, index: nat, part: bool, stop: string -> bool,
                  ghost nodes: map<string, DfaNode>, ghost ws: set<string>)
    returns (stopped: bool, calls: seq<string>, charCount: nat)
    requires Marks(nodes, ws) && Links(nodes) && Keys(nodes, ws)
    requires index < |t| && t[index..index + 1] in nodes && nodes[t[index..index + 1]] == start
    requires !start.IsLeaf()
    ensures calls == UpTo(Walk(t, ws, part, index, 1).0, stop)
    ensures stopped == AnyStop(Walk(t, ws, part, index, 1).0, stop)
    ensures !stopped ==> charCount == Walk(t, ws, part, index, 1).1
  {
    ghost var whole := Walk(t, ws, part, index, 1);
    WalkAccEmpty(t, ws, part, index, 1);
    var node := start;
    charCount := 1;
    calls := [];
    stopped := false;
    var i := index + 1;
    ghost var path := t[index..i];
    while i < |t|
      invariant i == index + charCount <= |t|
      invariant path == t[index..i] && path in nodes && node == nodes[path] && !node.IsLeaf()
      invariant WalkAcc(t, ws, part, index, charCount, calls) == whole
      invariant !AnyStop(calls, stop)
      decreases |t| - i
    {
      var next := node.Find(t[i]);
      WalkNext(nodes, ws, t, part, index, i, charCount, node, next, calls);
      if next == null {
        break;
      }
      charCount := charCount + 1;
      var word := t[index..i + 1];
      if next.word {
        ghost var before := calls;
        calls := calls + [word];
        if stop(word) {
          stopped := true;
          if part || next.IsLeaf() {
            StopAt(before, word, [], stop);
            assert calls + [] == calls;
          } else {
            WalkAccSpec(t, ws, part, index, charCount, calls);
            StopAt(before, word, Walk(t, ws, part, index, charCount).0, stop);
          }
          return;
        }
        AnyStopAppend(before, [word], stop);
        if part {
          break;
        }
      }
      if next.IsLeaf() {
        break;
      }
      node := next;
      path := t[index..i + 1];
      i := i + 1;
    }
    UpToSpec(calls, stop);
  }

  /** One step of the walk: the child found for the next character decides
      how the accumulated walk goes on from there. */
  lemma WalkNext(nodes: map<string, DfaNode>, ws: set<string>, t: string, part: bool,
                 index: nat, i: nat, n: nat, node: DfaNode, next: DfaNode?, acc: seq<string>)
    requires Marks(nodes, ws) && Links(nodes) && Keys(nodes, ws)
    requires index < i < |t| && i == index + n && t[index..i] in nodes && node == nodes[t[index..i]]
    requires next != null <==> node.HasChild(t[i])
    requires next != null ==> next == node.childs.value[t[i]]
    ensures next != null ==> t[index..i + 1] in nodes && next == nodes[t[index..i + 1]]
    ensures next == null ==> WalkAcc(t, ws, part, index, n, acc) == (acc, n)
    ensures next != null && part && next.word ==>
      WalkAcc(t, ws, part, index, n, acc) == (acc + [t[index..i + 1]], n + 1)
    ensures next != null && !(part && next.word) && next.IsLeaf() ==>
      WalkAcc(t, ws, part, index, n, acc)
        == (if next.word then acc + [t[index..i + 1]] else acc, n + 1)
    ensures next != null && !(part && next.word) && !next.IsLeaf() ==>
      WalkAcc(t, ws, part, index, n, acc)
        == WalkAcc(t, ws, part, index, n + 1, if next.word then acc + [t[index..i + 1]] else acc)
  {
    NextNode(nodes, ws, t, index, i, node, next);
  }

  /** What the child lookup of the walk tells about the stored words. */
  lemma NextNode(nodes: map<string, DfaNode>, ws: set<string>, t: string, index: nat, i: nat, node: DfaNode, next: DfaNode?)
    requires Marks(nodes, ws) && Links(nodes) && Keys(nodes, ws)
    requires index <= i < |t| && t[index..i] in nodes && node == nodes[t[index..i]]
    requires next != null <==> node.HasChild(t[i])
    requires next != null ==> next == node.childs.value[t[i]]
    ensures next == null <==> !Begins(t[index..i + 1], ws)
    ensures next != null ==> t[index..i + 1] in nodes && next == nodes[t[index..i + 1]]
    ensures next != null ==> (next.word <==> t[index..i + 1] in ws)
    ensures next != null ==> (next.IsLeaf() <==> !Extends(t[index..i + 1], ws))
  {
    var p := t[index..i + 1];
    assert p == t[index..i] + [t[i]];
    if next != null {
      LeafMeaning(nodes, ws, p);
    }
  }
}

module TrieRoot {
  import opened Scan
  import opened TrieSpec
  import opened Trie

  /** The root entry for `c` exists exactly when a stored word begins with
      `c`, and is a leaf exactly when no stored word extends `[c]`. */
  lemma RootStart(root: map<char, DfaNode>, nodes: map<string, DfaNode>, ws: set<string>, c: char)
    requires Marks(nodes, ws) && Links(nodes) && Keys(nodes, ws) && RootEntries(root, nodes)
    ensures c in root <==> Begins([c], ws)
    ensures c in root ==> (root[c].IsLeaf() <==> !Extends([c], ws))
  {
    if c in root {
      LeafMeaning(nodes, ws, [c]);
    }
  }

  /** A new root node for `c`, with no child and no word mark, keeps the
      shape: no stored word is one character long. */
  lemma RootAdded(nodes: map<string, DfaNode>, ws: set<string>, c: char, n: DfaNode)
    requires Shape(nodes, ws) && LongWords(ws) && [c] !in nodes
    requires n !in nodes.Values && n.ch == c && !n.word && n.childs.None?
    ensures Shape(nodes[[c] := n], ws)
  {
    var nodes' := nodes[[c] := n];
    forall p, d | p + [d] in nodes' && p != [] ensures p in nodes' {
      assert |p + [d]| >= 2;
      assert p + [d] in nodes;
    }
    forall p, d | p in nodes' ensures nodes'[p].HasChild(d) <==> p + [d] in nodes' {
      if p == [c] {
        assert [c] + [d] !in nodes;
      } else {
        assert (p + [d])[..|p|] == p;
        assert p + [d] != [c];
      }
    }
    forall p, q | p in nodes' && q in nodes' && p != q ensures nodes'[p] != nodes'[q] {
      if p != [c] && q != [c] {
        assert nodes'[p] == nodes[p] && nodes'[q] == nodes[q];
      } else if p == [c] {
        assert nodes[q] in nodes.Values;
      } else {
        assert nodes[p] in nodes.Values;
      }
    }
    forall p | p in nodes' ensures nodes'[p].word <==> p in ws {
      if p == [c] {
        assert |p| == 1;
      }
    }
  }

  /** After a word is added along a grown path (starting from `base`, or
      from `base` with a new root entry for the word's first character), the
      nodes are again exactly the non-empty prefixes of the stored words. */
  lemma KeysGrown(nodes0: map<string, DfaNode>, nodes: map<string, DfaNode>, ws: set<string>, w: string,
                  base: map<string, DfaNode>)
    requires Keys(base, ws) && |w| >= 1
    requires forall p {:trigger p in nodes0} :: p in nodes0 <==> p in base || p == w[..1]
    requires Grown(nodes0, nodes, w, |w|)
    ensures Keys(nodes, ws + {w})
  {
    forall p ensures p in nodes <==> p != [] && Begins(p, ws + {w}) {
      if p in nodes {
        if p in base {
          assert Begins(p, ws);
          var x :| x in ws && |p| <= |x| && x[..|p|] == p;
          assert x in ws + {w};
        } else if p in nodes0 {
          assert p == w[..1];
          assert w in ws + {w} && w[..|p|] == p;
        } else {
          var j :| 1 <= j <= |w| && p == w[..j];
          assert w in ws + {w} && w[..|p|] == p;
        }
      }
      if p != [] && Begins(p, ws + {w}) {
        var x :| x in ws + {w} && |p| <= |x| && x[..|p|] == p;
        if x == w {
          assert w[..|p|] in nodes;
        } else {
          assert Begins(p, ws);
          assert p in nodes0;
        }
      }
    }
  }

  /** A well-formed trie below the root entries `root` for the words `ws`. */
  ghost predicate WellFormed(root: map<char, DfaNode>, nodes: map<string, DfaNode>, ws: set<string>)
    reads nodes.Values
  {
    Shape(nodes, ws) && Keys(nodes, ws) && RootEntries(root, nodes) && LongWords(ws)
  }

  /** The DFA `putOneWord` once the word `w` is trimmed and accepted: the
      root entry of its first character is found or created, then the rest
      of the path is extended and its last node marked. Nodes already there
      keep their paths; the others are new. */
  method InsertWord(root: map<char, DfaNode>, w: string, ghost nodes: map<string, DfaNode>, ghost ws: set<string>)
    returns (root': map<char, DfaNode>, ghost nodes': map<string, DfaNode>)
    requires |w| >= 2 && WellFormed(root, nodes, ws)
    modifies nodes.Values
    ensures WellFormed(root', nodes', ws + {w})
    ensures w in nodes' && nodes'[w].word
    ensures forall c {:trigger root[c]} :: c in root ==> c in root' && root'[c] == root[c]
    ensures forall p {:trigger nodes[p]} :: p in nodes ==> p in nodes' && nodes'[p] == nodes[p]
    ensures forall p {:trigger nodes'[p]} :: p in nodes' && p !in nodes ==> fresh(nodes'[p])
  {
    assert [w[0]] == w[..1];
    var first;
    ghost var nodes1;
    first, root', nodes1 := FindOrAddRoot(root, w[0], nodes, ws);
    nodes' := GrowWord(root', first, w, nodes, nodes1, ws);
    forall p | p in nodes ensures p in nodes' && nodes'[p] == nodes[p] {
      assert nodes1[p] == nodes[p];
    }
  }

  /** `state.get(c)`, and when it is null a new node put under `c`: the
      root entry of a word's first character. */
  method FindOrAddRoot(root: map<char, DfaNode>, c: char, ghost nodes: map<string, DfaNode>, ghost ws: set<string>)
    returns (first: DfaNode, root': map<char, DfaNode>, ghost nodes': map<string, DfaNode>)
    requires Shape(nodes, ws) && LongWords(ws) && RootEntries(root, nodes)
    ensures [c] in nodes' && nodes'[[c]] == first && root' == root[c := first]
    ensures forall p {:trigger p in nodes'} :: p in nodes' <==> p in nodes || p == [c]
    ensures forall p {:trigger nodes[p]} :: p in nodes ==> nodes'[p] == nodes[p]
    ensures [c] !in nodes ==> fresh(first)
    ensures Shape(nodes', ws) && RootEntries(root', nodes')
  {
    if c in root {
      first, root', nodes' := root[c], root, nodes;
    } else {
      first := new DfaNode(c);
      RootAdded(nodes, ws, c, first);
      nodes' := nodes[[c] := first];
      root' := root[c := first];
    }
  }

  /** A word path grown below an existing root entry adds no root entry:
      the only one-character path it can create is the word's first
      character, which was there already. */
  lemma RootEntriesGrown(root: map<char, DfaNode>, nodes0: map<string, DfaNode>, nodes: map<string, DfaNode>, w: string)
    requires RootEntries(root, nodes0) && |w| >= 1 && w[..1] in nodes0
    requires Grown(nodes0, nodes, w, |w|)
    ensures RootEntries(root, nodes)
  {
    forall c | [c] in nodes ensures [c] in nodes0 {
      if [c] !in nodes0 {
        assert false;
      }
    }
  }

  /** The part of `putOneWord` after the root entry `first` of the word's
      first character has been found or created: the rest of the path is
      extended and the word marked. `base` are the nodes before the call,
      `nodes0` the same with the root entry. */
  method GrowWord(root: map<char, DfaNode>, first: DfaNode, w: string,
                  ghost base: map<string, DfaNode>, ghost nodes0: map<string, DfaNode>, ghost ws: set<string>)
    returns (ghost nodes: map<string, DfaNode>)
    requires |w| >= 2 && Shape(nodes0, ws) && Keys(base, ws) && RootEntries(root, nodes0)
    requires forall p {:trigger p in nodes0} :: p in nodes0 <==> p in base || p == w[..1]
    requires w[..1] in nodes0 && nodes0[w[..1]] == first
    modifies nodes0.Values
    ensures Shape(nodes, ws + {w}) && Keys(nodes, ws + {w}) && RootEntries(root, nodes)
    ensures w in nodes && nodes[w].word
    ensures forall p {:trigger nodes0[p]} :: p in nodes0 ==> p in nodes && nodes[p] == nodes0[p]
    ensures forall p {:trigger nodes[p]} :: p in nodes && p !in nodes0 ==> fresh(nodes[p])
  {
    assert [w[0]] == w[..1];
    nodes := ExtendPath(first, w, nodes0, ws);
    KeysGrown(nodes0, nodes, ws, w, base);
    RootEntriesGrown(root, nodes0, nodes, w);
    assert w[..|w|] == w;
  }

  /** The outer loop of `processor` over the trimmed content `t`: every
      start whose root entry exists and is not a leaf is walked, and with
      `part` the next start is one past the characters matched. The
      callback sees the reports up to the first one it answers true for. */
  method ScanTrie(root: map<char, DfaNode>, t: string, part: bool, stop: string -> bool,
                  ghost nodes: map<string, DfaNode>, ghost ws: set<string>)
    returns (r: bool, calls: seq<string>)
    requires Marks(nodes, ws) && Links(nodes) && Keys(nodes, ws) && RootEntries(root, nodes)
    ensures calls == UpTo(Reports(t, ws, part, 0), stop)
    ensures r == AnyStop(Reports(t, ws, part, 0), stop)
  {
    ghost var all := Reports(t, ws, part, 0);
    ReportsAccEmpty(t, ws, part, 0);
    calls := [];
    var index := 0;
    while index < |t|
      invariant index <= |t| + 1
      invariant ReportsAcc(t, ws, part, Min(index, |t|), calls) == all
      invariant !AnyStop(calls, stop)
      decreases |t| - index
    {
      var stopped, calls', index' := ScanStart(root, t, index, part, stop, calls, nodes, ws);
      if stopped {
        return true, calls';
      }
      calls, index := calls', index';
    }
    assert ReportsAcc(t, ws, part, |t|, calls) == calls;
    UpToSpec(calls, stop);
    r := false;
  }

  /** One turn of the outer loop of `processor`, from start `index` with
      the reports `calls` so far: either the callback stops the scan, or the
      scan goes on from `next` with the reports `calls'`. */
  method ScanStart(root: map<char, DfaNode>, t: string, index: nat, part: bool, stop: string -> bool,
                   calls: seq<string>, ghost nodes: map<string, DfaNode>, ghost ws: set<string>)
    returns (stopped: bool, calls': seq<string>, next: nat)
    requires Marks(nodes, ws) && Links(nodes) && Keys(nodes, ws) && RootEntries(root, nodes)
    requires index < |t| && !AnyStop(calls, stop)
    ensures stopped ==> calls' == UpTo(ReportsAcc(t, ws, part, index, calls), stop)
    ensures stopped ==> AnyStop(ReportsAcc(t, ws, part, index, calls), stop)
    ensures !stopped ==> index < next <= |t| + 1 && !AnyStop(calls', stop)
    ensures !stopped ==> ReportsAcc(t, ws, part, index, calls) == ReportsAcc(t, ws, part, Min(next, |t|), calls')
  {
    var c := t[index];
    RootStart(root, nodes, ws, c);
    assert t[index..index + 1] == [c];
    if c !in root || root[c].IsLeaf() {
      ReportsAccSkip(t, ws, part, index, calls);
      return false, calls, index + 1;
    }
    ReportsAccWalk(t, ws, part, index, calls);
    stopped, calls', next := ScanWalk(root[c], t, index, part, stop, calls, nodes, ws);
  }

  /** The walk of one start whose root entry `start` exists and is not a
      leaf, as a step of the accumulated scan. */
  method ScanWalk(start: DfaNode, t: string, index: nat, part: bool, stop: string -> bool,
                  calls: seq<string>, ghost nodes: map<string, DfaNode>, ghost ws: set<string>)
    returns (stopped: bool, calls': seq<string>, next: nat)
    requires Marks(nodes, ws) && Links(nodes) && Keys(nodes, ws)
    requires index < |t| && t[index..index + 1] in nodes && nodes[t[index..index + 1]] == start
    requires !start.IsLeaf() && !AnyStop(calls, stop)
    ensures var w := Walk(t, ws, part, index, 1).0;
      var after := Reports(t, ws, part, NextStart(t, ws, part, index));
      && (stopped ==> calls' == UpTo(calls + w + after, stop) && AnyStop(calls + w + after, stop))
      && (!stopped ==> calls' == calls + w && !AnyStop(calls', stop))
      && (!stopped ==> index < next <= |t| + 1 && Min(next, |t|) == NextStart(t, ws, part, index))
  {
    var found, charCount;
    stopped, found, charCount := WalkFrom(start, t, index, part, stop, nodes, ws);
    ghost var walk := Walk(t, ws, part, index, 1).0;
    if stopped {
      StopInside(calls, walk, Reports(t, ws, part, NextStart(t, ws, part, index)), stop);
      return true, calls + found, index + 1;
    }
    UpToSpec(walk, stop);
    AnyStopAppend(calls, walk, stop);
    calls' := calls + found;
    next := if part then index + charCount + 1 else index + 1;
  }
}
