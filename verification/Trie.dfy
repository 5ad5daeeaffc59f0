/**
  The dictionary trie: heap nodes linked through per-node child maps. A ghost
  map from paths to nodes ties the linked structure to a plain map from keys
  to dictionary units.
 */
module Trie {
  import opened Options
  import opened Unicode

  type Key = seq<Rune>

  datatype DictUnit = DictUnit(word: Key, weight: real, tag: string)

  type Dict = map<Key, DictUnit>

  /** One DAG edge: the index of its last rune, and its dictionary unit if it has one. */
  datatype Edge = Edge(end: nat, info: Option<DictUnit>)

  datatype Dag = Dag(nexts: seq<Edge>, pInfo: Option<DictUnit>, weight: real)

  function Lookup(dict: Dict, key: Key): Option<DictUnit> {
    if key in dict then Some(dict[key]) else None
  }

  /** Inserting keys one after the other: empty keys are ignored, the last value wins. */
  function Inserted(dict: Dict, key: Key, unit: DictUnit): Dict {
    if key == [] then dict else dict[key := unit]
  }

  function AllInserted(dict: Dict, keys: seq<Key>, units: seq<DictUnit>): Dict
    requires |keys| == |units|
  {
    if keys == [] then dict
    else
      var n := |keys| - 1;
      Inserted(AllInserted(dict, keys[..n], units[..n]), keys[n], units[n])
  }

  /** Declaratively: a key maps to the unit inserted last under it, and the empty key to nothing. */
  lemma {:induction false} LastInsertionWins(keys: seq<Key>, units: seq<DictUnit>, key: Key)
    requires |keys| == |units|
    ensures var found := Lookup(AllInserted(map[], keys, units), key);
            && (found.None? <==> key == [] || key !in keys)
            && (found.Some? ==> exists i :: 0 <= i < |keys| && keys[i] == key && found.value == units[i]
                                            && key !in keys[i + 1..])
  {
    if keys != [] {
      var n := |keys| - 1;
      LastInsertionWins(keys[..n], units[..n], key);
      var before := Lookup(AllInserted(map[], keys[..n], units[..n]), key);
      assert key in keys <==> key == keys[n] || key in keys[..n];
      if key != [] && key == keys[n] {
        assert key !in keys[n + 1..];
      } else if before.Some? {
        var i :| 0 <= i < n && keys[..n][i] == key && before.value == units[..n][i] && key !in keys[..n][i + 1..];
        assert keys[i + 1..] == keys[..n][i + 1..] + [keys[n]];
      }
    }
  }

  /** Every unit is filed under its own word. */
  predicate KeyedByWord(dict: Dict) { forall k :: k in dict ==> dict[k].word == k }

  /** The dictionary loader passes each unit's word as its key. */
  lemma {:induction false} LoadedKeyedByWord(keys: seq<Key>, units: seq<DictUnit>)
    requires |keys| == |units|
    requires forall i :: 0 <= i < |units| ==> units[i].word == keys[i]
    ensures KeyedByWord(AllInserted(map[], keys, units))
  {
    if keys != [] {
      var n := |keys| - 1;
      LoadedKeyedByWord(keys[..n], units[..n]);
    }
  }

  /** The edges from `i` whose last rune is at `j` or later. */
  function EdgesFrom(dict: Dict, text: seq<Rune>, i: nat, j: nat, maxLen: nat): seq<Edge>
    requires i < j <= |text|
    decreases |text| - j
  {
    if j == |text| || j - i + 1 > maxLen then []
    else
      (if text[i..j + 1] in dict then [Edge(j, Some(dict[text[i..j + 1]]))] else [])
      + EdgesFrom(dict, text, i, j + 1, maxLen)
  }

  /** All edges from `i`: the one-rune entry first, whether or not it is a word. */
  function Edges(dict: Dict, text: seq<Rune>, i: nat, maxLen: nat): seq<Edge>
    requires i < |text|
  {
    [Edge(i, Lookup(dict, text[i..i + 1]))] + EdgesFrom(dict, text, i, i + 1, maxLen)
  }

  /** What it means to be a proper (longer than one rune) edge, without any search order. */
  predicate IsWordEdge(dict: Dict, text: seq<Rune>, i: nat, maxLen: nat, e: Edge)
    requires i < |text|
  {
    && i < e.end < |text|
    && e.end - i + 1 <= maxLen
    && text[i..e.end + 1] in dict
    && e.info == Some(dict[text[i..e.end + 1]])
  }

  predicate Increasing(es: seq<Edge>) { forall k, l :: 0 <= k < l < |es| ==> es[k].end < es[l].end }

  lemma {:induction false} EdgesFromExactly(dict: Dict, text: seq<Rune>, i: nat, j: nat, maxLen: nat)
    requires i < j <= |text|
    ensures forall e :: e in EdgesFrom(dict, text, i, j, maxLen) <==>
                        IsWordEdge(dict, text, i, maxLen, e) && j <= e.end
    ensures Increasing(EdgesFrom(dict, text, i, j, maxLen))
    decreases |text| - j
  {
    if j < |text| && j - i + 1 <= maxLen {
      EdgesFromExactly(dict, text, i, j + 1, maxLen);
      var es, tail := EdgesFrom(dict, text, i, j, maxLen), EdgesFrom(dict, text, i, j + 1, maxLen);
      if text[i..j + 1] in dict {
        assert es == [Edge(j, Some(dict[text[i..j + 1]]))] + tail;
        forall k, l | 0 <= k < l < |es| ensures es[k].end < es[l].end {
          assert es[l] == tail[l - 1] && es[l] in tail;
          assert k > 0 ==> es[k] == tail[k - 1];
        }
      } else {
        assert es == tail;
      }
    }
  }

  /** The DAG lists the one-rune entry, then exactly the longer words, by increasing end. */
  lemma EdgesExactly(dict: Dict, text: seq<Rune>, i: nat, maxLen: nat)
    requires i < |text|
    ensures var es := Edges(dict, text, i, maxLen);
            && |es| >= 1 && es[0] == Edge(i, Lookup(dict, text[i..i + 1]))
            && (forall e :: e in es[1..] <==> IsWordEdge(dict, text, i, maxLen, e))
            && Increasing(es)
  {
    EdgesFromExactly(dict, text, i, i + 1, maxLen);
    var es := Edges(dict, text, i, maxLen);
    assert es[1..] == EdgesFrom(dict, text, i, i + 1, maxLen);
    forall k, l | 0 <= k < l < |es| ensures es[k].end < es[l].end {
      assert es[l] == es[1..][l - 1] && es[l] in es[1..];
    }
  }

  /** If no key starts with text[i..j+1], there is no edge ending at `j` or later. */
  lemma {:induction false} NoEdgesBeyond(dict: Dict, text: seq<Rune>, i: nat, j: nat, k: nat, maxLen: nat)
    requires i <= j <= k <= |text| && j < |text| && i < k
    requires forall key :: key in dict ==> !(text[i..j + 1] <= key)
    ensures EdgesFrom(dict, text, i, k, maxLen) == []
    decreases |text| - k
  {
    if k < |text| && k - i + 1 <= maxLen {
      assert text[i..j + 1] <= text[i..k + 1];
      NoEdgesBeyond(dict, text, i, j, k + 1, maxLen);
    }
  }

  /** One turn of the inner loop: the edge ending at `j`, if it is a word, comes next. */
  lemma EdgeStep(dict: Dict, text: seq<Rune>, i: nat, j: nat, maxLen: nat, nexts: seq<Edge>)
    requires i < j < |text| && j - i + 1 <= maxLen
    ensures var info := Lookup(dict, text[i..j + 1]);
            nexts + EdgesFrom(dict, text, i, j, maxLen)
            == (if info.Some? then nexts + [Edge(j, info)] else nexts) + EdgesFrom(dict, text, i, j + 1, maxLen)
  {
  }

  // ---------------------------------------------------------------------
  // The linked structure
  // ---------------------------------------------------------------------

  /** A null child map and an empty one behave alike, so both are the empty map here. */
  class TrieNode {
    var next: map<Rune, TrieNode>
    var ptValue: Option<DictUnit>

    constructor ()
      ensures next == map[] && ptValue == None
    {
      next := map[];
      ptValue := None;
    }
  }

  function Child(p: Key, c: Rune): Key { p + [c] }

  function Parent(p: Key): Key
    requires p != []
  {
    p[..|p| - 1]
  }

  type NextMap = map<Rune, TrieNode>

  /** The node at `p` leads exactly to the nodes at its one-rune extensions. */
  ghost predicate Linked(nodes: map<Key, TrieNode>, links: map<Key, NextMap>, p: Key)
    requires nodes.Keys == links.Keys && p in nodes
  {
    && (forall c :: c in links[p] ==> Child(p, c) in nodes && links[p][c] == nodes[Child(p, c)])
    && (p != [] ==> Parent(p) in nodes && p[|p| - 1] in links[Parent(p)])
  }

  ghost predicate Apart(nodes: map<Key, TrieNode>, p: Key, q: Key)
    requires p in nodes && q in nodes
  {
    nodes[p] == nodes[q] ==> p == q
  }

  /** Distinct paths have distinct nodes, and every node is properly linked. */
  ghost predicate WellLinked(nodes: map<Key, TrieNode>, links: map<Key, NextMap>) {
    && nodes.Keys == links.Keys
    && (forall p, q {:trigger Apart(nodes, p, q)} :: p in nodes && q in nodes ==> Apart(nodes, p, q))
    && (forall p {:trigger Linked(nodes, links, p)} :: p in nodes ==> Linked(nodes, links, p))
  }

  lemma LinkChild(nodes: map<Key, TrieNode>, links: map<Key, NextMap>, p: Key, c: Rune, n: TrieNode)
    requires WellLinked(nodes, links) && p in nodes && Child(p, c) !in nodes && n !in nodes.Values
    ensures WellLinked(nodes[Child(p, c) := n], links[p := links[p][c := n]][Child(p, c) := map[]])
  {
    var nodes', links' := nodes[Child(p, c) := n], links[p := links[p][c := n]][Child(p, c) := map[]];
    forall q, r | q in nodes' && r in nodes' ensures Apart(nodes', q, r) {
      assert q in nodes && r in nodes ==> Apart(nodes, q, r);
    }
    forall q | q in nodes' ensures Linked(nodes', links', q) {
      if q == Child(p, c) {
        assert Parent(q) == p;
      } else {
        assert Linked(nodes, links, q);
      }
    }
  }

  class Trie {
    const root: TrieNode
    ghost var dict: Dict                  // the abstract dictionary
    ghost var nodes: map<Key, TrieNode>   // the node at each path
    ghost var links: map<Key, NextMap>    // its child map

    /** The node at `p` holds what the ghost maps say. */
    ghost predicate Holds(p: Key)
      requires p in nodes && p in links
      reads this, nodes.Values
    {
      nodes[p].next == links[p] && nodes[p].ptValue == Lookup(dict, p)
    }

    ghost predicate Valid()
      reads this, nodes.Values
    {
      && [] in nodes && nodes[[]] == root && [] !in dict && dict.Keys <= nodes.Keys
      && WellLinked(nodes, links)
      && forall p {:trigger Holds(p)} :: p in nodes ==> Holds(p)
    }

    /** A path with no node has no longer path with a node. */
    lemma {:induction false} PrefixClosed(p: Key, q: Key)
      requires Valid() && p <= q && q in nodes
      ensures p in nodes
      decreases |q|
    {
      if p == q {
      } else {
        assert Linked(nodes, links, q) && p <= Parent(q);
        PrefixClosed(p, Parent(q));
      }
    }

    lemma Step(p: Key, c: Rune)
      requires Valid() && p in nodes
      ensures nodes[p].next == links[p] && nodes[p].ptValue == Lookup(dict, p)
      ensures c in nodes[p].next <==> Child(p, c) in nodes
      ensures c in nodes[p].next ==>
                nodes[p].next[c] == nodes[Child(p, c)] && nodes[p].next[c].ptValue == Lookup(dict, Child(p, c))
    {
      assert Holds(p);
      assert Linked(nodes, links, p);
      if Child(p, c) in nodes {
        assert Linked(nodes, links, Child(p, c)) && Parent(Child(p, c)) == p;
        assert Holds(Child(p, c));
      }
    }

    /** Links a fresh node below the node at `p`. */
    method AddChild(ghost p: Key, ptNode: TrieNode, c: Rune) returns (nextNode: TrieNode)
      requires Valid() && p in nodes && ptNode == nodes[p] && c !in ptNode.next
      modifies this`nodes, this`links, ptNode`next
      ensures Valid() && fresh(nextNode) && nodes == old(nodes)[Child(p, c) := nextNode]
    {
      Step(p, c);
      nextNode := new TrieNode();
      LinkChild(nodes, links, p, c, nextNode);
      ptNode.next := ptNode.next[c := nextNode];
      nodes := nodes[Child(p, c) := nextNode];
      links := links[p := links[p][c := nextNode]][Child(p, c) := map[]];
      forall q | q in nodes ensures Holds(q) {
        assert q in old(nodes) ==> old(Holds(q) && Apart(nodes, p, q));
      }
    }

    method InsertNode(key: Key, unit: DictUnit)
      requires Valid()
      modifies this, nodes.Values
      ensures Valid() && fresh(nodes.Values - old(nodes.Values))
      ensures dict == Inserted(old(dict), key, unit)
    {
      if key == [] {
        return;
      }
      var ptNode := root;
      assert key[..0] == [];
      for citer := 0 to |key|
        invariant Valid() && fresh(nodes.Values - old(nodes.Values))
        invariant dict == old(dict)
        invariant key[..citer] in nodes && ptNode == nodes[key[..citer]]
      {
        Step(key[..citer], key[citer]);
        assert Child(key[..citer], key[citer]) == key[..citer + 1];
        if key[citer] !in ptNode.next {
          ptNode := AddChild(key[..citer], ptNode, key[citer]);
        } else {
          ptNode := ptNode.next[key[citer]];
        }
      }
      assert key[..|key|] == key;
      SetValue(key, ptNode, unit);
    }

    method SetValue(ghost p: Key, ptNode: TrieNode, unit: DictUnit)
      requires Valid() && p in nodes && p != [] && ptNode == nodes[p]
      modifies this`dict, ptNode`ptValue
      ensures Valid() && dict == old(dict)[p := unit]
    {
      ptNode.ptValue := Some(unit);
      dict := dict[p := unit];
      forall q | q in nodes ensures Holds(q) {
        assert old(Holds(q)) && Apart(nodes, p, q);
      }
    }

    /** Building from parallel lists; with an empty list of values nothing is inserted. */
    constructor Create(keys: seq<Key>, units: seq<DictUnit>)
      requires keys == [] || units == [] || |keys| == |units|
      ensures Valid() && fresh(nodes.Values)
      ensures dict == if |keys| == |units| then AllInserted(map[], keys, units) else map[]
    {
      root := new TrieNode();
      new;
      dict, nodes, links := map[], map[[] := root], map[[] := map[]];
      if units != [] && keys != [] {
        InsertAll(keys, units);
      }
    }

    method InsertAll(keys: seq<Key>, units: seq<DictUnit>)
      requires Valid() && |keys| == |units|
      modifies this, nodes.Values
      ensures Valid() && fresh(nodes.Values - old(nodes.Values))
      ensures dict == AllInserted(old(dict), keys, units)
    {
      for i := 0 to |keys|
        invariant Valid() && fresh(nodes.Values - old(nodes.Values))
        invariant dict == AllInserted(old(dict), keys[..i], units[..i])
      {
        InsertNode(keys[i], units[i]);
        assert keys[..i + 1][..i] == keys[..i] && units[..i + 1][..i] == units[..i];
      }
      assert keys[..|keys|] == keys && units[..|keys|] == units;
    }

    method FindExact(key: Key) returns (r: Option<DictUnit>)
      requires Valid()
      ensures r == Lookup(dict, key)
    {
      if key == [] {
        return None;
      }
      var ptNode := root;
      assert key[..0] == [];
      for it := 0 to |key|
        invariant key[..it] in nodes && ptNode == nodes[key[..it]]
      {
        Step(key[..it], key[it]);
        assert Child(key[..it], key[it]) == key[..it + 1];
        if key[it] !in ptNode.next {
          if key in nodes {
            PrefixClosed(key[..it + 1], key);
          }
          return None;
        }
        ptNode := ptNode.next[key[it]];
      }
      assert key[..|key|] == key && Holds(key);
      return ptNode.ptValue;
    }

    /** The edges of every start position, computed by walking down the nodes. */
    method FindDag(text: seq<Rune>, maxLen: nat) returns (res: array<Dag>)
      requires Valid()
      ensures fresh(res) && res.Length == |text|
      ensures forall i :: 0 <= i < |text| ==> res[i].nexts == Edges(dict, text, i, maxLen)
    {
      res := new Dag[|text|](_ => Dag([], None, 0.0));
      for i := 0 to |text|
        invariant Valid()
        invariant forall k :: 0 <= k < i ==> res[k].nexts == Edges(dict, text, k, maxLen)
      {
        var nexts := FindFrom(text, i, maxLen);
        res[i] := Dag(nexts, None, 0.0);
      }
    }

    method FindFrom(text: seq<Rune>, i: nat, maxLen: nat) returns (nexts: seq<Edge>)
      requires Valid() && i < |text|
      ensures nexts == Edges(dict, text, i, maxLen)
    {
      Step([], text[i]);
      assert Child([], text[i]) == text[i..i + 1];
      if text[i] !in root.next {
        NoNodeNoEdges(text, i, i, i + 1, maxLen);
        return [Edge(i, None)];
      }
      var ptNode := root.next[text[i]];
      nexts := [Edge(i, ptNode.ptValue)];
      var j := i + 1;
      while j < |text| && j - i + 1 <= maxLen
        invariant i < j <= |text|
        invariant text[i..j] in nodes && ptNode == nodes[text[i..j]]
        invariant nexts + EdgesFrom(dict, text, i, j, maxLen) == Edges(dict, text, i, maxLen)
      {
        Step(text[i..j], text[j]);
        assert Child(text[i..j], text[j]) == text[i..j + 1];
        if text[j] !in ptNode.next {
          NoNodeNoEdges(text, i, j, j, maxLen);
          return;
        }
        EdgeStep(dict, text, i, j, maxLen, nexts);
        ptNode := ptNode.next[text[j]];
        if ptNode.ptValue.Some? {
          nexts := nexts + [Edge(j, ptNode.ptValue)];
        }
        j := j + 1;
      }
    }

    /** No node at text[i..j+1] means no edge ending at `k` (>= j) or later. */
    lemma NoNodeNoEdges(text: seq<Rune>, i: nat, j: nat, k: nat, maxLen: nat)
      requires Valid() && i <= j <= k <= |text| && j < |text| && i < k
      requires text[i..j + 1] !in nodes
      ensures EdgesFrom(dict, text, i, k, maxLen) == []
    {
      var p := text[i..j + 1];
      forall key | key in dict ensures !(p <= key) {
        if p <= key {
          PrefixClosed(p, key);
        }
      }
      NoEdgesBeyond(dict, text, i, j, k, maxLen);
    }
  }
}
