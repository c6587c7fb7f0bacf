/** Finding candidate symbols: a trie whose edges are labelled with relocation-masked words. */
module SymbolTrie {
  import opened Instructions
  import opened LittleEndian
  import opened SymbolMatching
  import opened Words

  type Key = string

  datatype MatchNode = MatchNode(offset: uint32, next: seq<MatchEdge>, symbols: seq<Key>)
  datatype MatchEdge = MatchEdge(value: uint32, relocation: RelocationType, child: MatchNode)

  /** The records of the symbol database, by key. Not every key in the trie has one. */
  type Database = map<Key, Symbol>

  function Known(db: Database, keys: seq<Key>): seq<Symbol>
    decreases |keys|
  {
    if keys == [] then []
    else Known(db, keys[..|keys| - 1])
         + if keys[|keys| - 1] in db then [db[keys[|keys| - 1]]] else []
  }

  /** The node's word lies inside the section, seen from offset. */
  predicate NodeFits(data: seq<byte>, offset: uint32, node: MatchNode) {
    offset + node.offset + 4 <= |data|
  }

  predicate EdgeMatches(data: seq<byte>, offset: uint32, node: MatchNode, edge: MatchEdge)
    requires NodeFits(data, offset, node)
  {
    Masked(edge.relocation, Word(data, offset + node.offset)) == Masked(edge.relocation, edge.value)
  }

  /** Everything the trie offers below a node: on the children its matching edges lead to, and below those. */
  function Below(db: Database, data: seq<byte>, offset: uint32, node: MatchNode): multiset<Symbol>
    decreases node, |node.next| + 1
  {
    if NodeFits(data, offset, node) then BelowEdges(db, data, offset, node, |node.next|) else multiset{}
  }

  /** The same through the first i edges only. */
  function BelowEdges(db: Database, data: seq<byte>, offset: uint32, node: MatchNode, i: nat): multiset<Symbol>
    requires i <= |node.next| && NodeFits(data, offset, node)
    decreases node, i
  {
    if i == 0 then multiset{}
    else
      var edge := node.next[i - 1];
      BelowEdges(db, data, offset, node, i - 1)
      + if EdgeMatches(data, offset, node, edge)
        then multiset(Known(db, edge.child.symbols)) + Below(db, data, offset, edge.child) else multiset{}
  }

  function AllBelow(db: Database, data: seq<byte>, offset: uint32, stack: seq<MatchNode>): multiset<Symbol>
    decreases |stack|
  {
    if stack == [] then multiset{}
    else AllBelow(db, data, offset, stack[..|stack| - 1]) + Below(db, data, offset, stack[|stack| - 1])
  }

  // ---- Sizes, for termination ---------------------------------------------------------------

  function Size(node: MatchNode): nat
    decreases node, |node.next| + 1
  {
    1 + SizeEdges(node, |node.next|)
  }

  function SizeEdges(node: MatchNode, i: nat): nat
    requires i <= |node.next|
    decreases node, i
  {
    if i == 0 then 0 else SizeEdges(node, i - 1) + Size(node.next[i - 1].child)
  }

  function SizeAll(stack: seq<MatchNode>): nat
    decreases |stack|
  {
    if stack == [] then 0 else SizeAll(stack[..|stack| - 1]) + Size(stack[|stack| - 1])
  }

  // ---- The search ---------------------------------------------------------------------------

  /** Appends the known symbols of a node. */
  method CollectKnown(db: Database, keys: seq<Key>, symbols: seq<Symbol>) returns (symbols': seq<Symbol>)
    ensures symbols' == symbols + Known(db, keys)
  {
    symbols' := symbols;
    for j := 0 to |keys|
      invariant symbols' == symbols + Known(db, keys[..j])
    {
      assert keys[..j + 1][..j] == keys[..j];
      if keys[j] in db {
        symbols' := symbols' + [db[keys[j]]];
      }
    }
    assert keys[..|keys|] == keys;
  }

  /** What the search holds: symbols found, and what the stacked nodes still have to offer. */
  ghost function Holding(db: Database, data: seq<byte>, offset: uint32, symbols: seq<Symbol>, stack: seq<MatchNode>)
    : multiset<Symbol>
  {
    multiset(symbols) + AllBelow(db, data, offset, stack)
  }

  /** A matching edge: the child's symbols are collected, and the child is stacked if it has edges. */
  method TakeEdge(db: Database, data: seq<byte>, offset: uint32, child: MatchNode,
                  symbols: seq<Symbol>, stack: seq<MatchNode>)
    returns (symbols': seq<Symbol>, stack': seq<MatchNode>)
    ensures Holding(db, data, offset, symbols', stack')
            == Holding(db, data, offset, symbols, stack)
               + (multiset(Known(db, child.symbols)) + Below(db, data, offset, child))
    ensures SizeAll(stack') <= SizeAll(stack) + Size(child)
  {
    symbols' := CollectKnown(db, child.symbols, symbols);
    stack' := stack;
    if child.next != [] {
      stack' := stack + [child];
      assert stack'[..|stack|] == stack;
    } else {
      assert Below(db, data, offset, child) == multiset{};
    }
  }

  /** The words agree under the edge's mask. */
  method Matches(edge: MatchEdge, value: uint32) returns (r: bool)
    ensures r <==> Masked(edge.relocation, value) == Masked(edge.relocation, edge.value)
  {
    var mask := RelocationMask(edge.relocation);
    RelocationMaskIs(edge.relocation, value);
    RelocationMaskIs(edge.relocation, edge.value);
    r := And32(value, mask) == And32(edge.value, mask);
  }

  /** The edges of one node. */
  method Expand(db: Database, data: seq<byte>, offset: uint32, node: MatchNode,
                symbols: seq<Symbol>, stack: seq<MatchNode>)
    returns (symbols': seq<Symbol>, stack': seq<MatchNode>)
    requires NodeFits(data, offset, node)
    ensures Holding(db, data, offset, symbols', stack')
            == Holding(db, data, offset, symbols, stack) + Below(db, data, offset, node)
    ensures SizeAll(stack') < SizeAll(stack) + Size(node)
  {
    symbols', stack' := symbols, stack;
    var value := Word(data, offset + node.offset);
    for i := 0 to |node.next|
      invariant Holding(db, data, offset, symbols', stack')
                == Holding(db, data, offset, symbols, stack) + BelowEdges(db, data, offset, node, i)
      invariant SizeAll(stack') <= SizeAll(stack) + SizeEdges(node, i)
    {
      var edge := node.next[i];
      var taken := Matches(edge, value);
      if taken {
        symbols', stack' := TakeEdge(db, data, offset, edge.child, symbols', stack');
      }
    }
  }

  lemma OnlyRoot(db: Database, data: seq<byte>, offset: uint32, root: MatchNode)
    ensures Holding(db, data, offset, [], [root]) == Below(db, data, offset, root)
  {
    assert [root][..0] == [];
    assert AllBelow(db, data, offset, [root]) == AllBelow(db, data, offset, []) + Below(db, data, offset, root);
  }

  /** Main result on the search: whatever the shape of the trie, it returns exactly what the trie
      offers below the root, each symbol as often as it is offered. */
  method FindCandidateSymbols(db: Database, data: seq<byte>, offset: uint32, root: MatchNode)
    returns (symbols: seq<Symbol>)
    ensures multiset(symbols) == Below(db, data, offset, root)
  {
    symbols := [];
    var stack := [root];
    OnlyRoot(db, data, offset, root);
    while stack != []
      invariant Holding(db, data, offset, symbols, stack) == Below(db, data, offset, root)
      decreases SizeAll(stack)
    {
      var node := stack[|stack| - 1];
      stack := stack[..|stack| - 1];
      if node.offset > |data| || offset > |data| - node.offset {
        continue;
      }
      if |data| - offset - node.offset < 4 {
        continue;
      }
      symbols, stack := Expand(db, data, offset, node, symbols, stack);
    }
  }

  // ---- What that means for a single symbol --------------------------------------------------

  /** The path names an edge at every node; the node fits and the edge matches at every step. */
  predicate Walks(data: seq<byte>, offset: uint32, node: MatchNode, path: seq<nat>)
    decreases |path|
  {
    path == [] ||
    (&& NodeFits(data, offset, node)
     && path[0] < |node.next|
     && EdgeMatches(data, offset, node, node.next[path[0]])
     && Walks(data, offset, node.next[path[0]].child, path[1..]))
  }

  function Target(data: seq<byte>, offset: uint32, node: MatchNode, path: seq<nat>): MatchNode
    requires Walks(data, offset, node, path)
    decreases |path|
  {
    if path == [] then node else Target(data, offset, node.next[path[0]].child, path[1..])
  }

  /** x is listed on a node that a non-empty matching path leads to. */
  ghost predicate Offered(db: Database, data: seq<byte>, offset: uint32, node: MatchNode, x: Symbol) {
    exists path :: path != [] && Walks(data, offset, node, path)
      && x in Known(db, Target(data, offset, node, path).symbols)
  }

  lemma {:induction false} OfferedIffBelow(db: Database, data: seq<byte>, offset: uint32, node: MatchNode, x: Symbol)
    ensures x in Below(db, data, offset, node) <==> Offered(db, data, offset, node, x)
    decreases node, |node.next| + 1
  {
    if NodeFits(data, offset, node) {
      EdgesOffer(db, data, offset, node, x, |node.next|);
      if j :| 0 <= j < |node.next| && OfferedBy(db, data, offset, node, x, j) {
        OfferedThrough(db, data, offset, node, x, j);
      }
      if path :| path != [] && Walks(data, offset, node, path)
                 && x in Known(db, Target(data, offset, node, path).symbols) {
        var child := node.next[path[0]].child;
        assert Target(data, offset, node, path) == Target(data, offset, child, path[1..]);
        assert path[1..] == [] || Offered(db, data, offset, child, x);
        assert OfferedBy(db, data, offset, node, x, path[0]);
      }
    }
  }

  /** x comes through edge j of the node. */
  ghost predicate OfferedBy(db: Database, data: seq<byte>, offset: uint32, node: MatchNode, x: Symbol, j: nat)
    requires j < |node.next| && NodeFits(data, offset, node)
  {
    var edge := node.next[j];
    EdgeMatches(data, offset, node, edge)
    && (x in Known(db, edge.child.symbols) || Offered(db, data, offset, edge.child, x))
  }

  lemma {:induction false} EdgesOffer(db: Database, data: seq<byte>, offset: uint32, node: MatchNode, x: Symbol, i: nat)
    requires i <= |node.next| && NodeFits(data, offset, node)
    ensures x in BelowEdges(db, data, offset, node, i)
            <==> exists j :: 0 <= j < i && OfferedBy(db, data, offset, node, x, j)
    decreases node, i
  {
    if i > 0 {
      var edge := node.next[i - 1];
      EdgesOffer(db, data, offset, node, x, i - 1);
      OfferedIffBelow(db, data, offset, edge.child, x);
      assert OfferedBy(db, data, offset, node, x, i - 1) <==>
        EdgeMatches(data, offset, node, edge)
        && (x in Known(db, edge.child.symbols) || x in Below(db, data, offset, edge.child));
    }
  }

  lemma OfferedThrough(db: Database, data: seq<byte>, offset: uint32, node: MatchNode, x: Symbol, j: nat)
    requires j < |node.next| && NodeFits(data, offset, node) && OfferedBy(db, data, offset, node, x, j)
    ensures Offered(db, data, offset, node, x)
  {
    var child := node.next[j].child;
    var rest: seq<nat> := [];
    if !(x in Known(db, child.symbols)) {
      rest :| rest != [] && Walks(data, offset, child, rest)
        && x in Known(db, Target(data, offset, child, rest).symbols);
    }
    var path := [j] + rest;
    assert path[1..] == rest;
    assert Walks(data, offset, node, path);
    assert Target(data, offset, node, path) == Target(data, offset, child, path[1..]);
  }
}
