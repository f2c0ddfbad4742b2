/**
 * The cycle-safe description of a parser. A named parser prints its name; an
 * unnamed parser prints "..." when it was already visited on this walk, and
 * otherwise records itself as visited and prints its own text, which prints
 * its children with the same, growing, visited vector.
 */
module Printing {
  import opened Wrappers
  import opened Grammars

  /** The text of a description and the visited vector after it. */
  datatype Printed = Printed(text: string, visited: seq<NodeId>)

  /** The nodes of g the walk has not visited yet. */
  ghost function Unvisited<E, S, T>(g: Grammar<E, S, T>, visited: seq<NodeId>): set<NodeId>
  {
    set id | id in g && id !in visited
  }

  /** visited' is visited with possibly more nodes appended. */
  predicate Extends(visited: seq<NodeId>, visited': seq<NodeId>)
  {
    |visited| <= |visited'| && visited'[..|visited|] == visited
  }

  /** No node occurs twice. */
  predicate NoRepeats(visited: seq<NodeId>)
  {
    forall i, j :: 0 <= i < j < |visited| ==> visited[i] != visited[j]
  }

  /** Every node a walk adds to the visited vector is an unnamed node of g
      that was not there before. */
  ghost predicate AddsUnnamed<E, S, T>(g: Grammar<E, S, T>, visited: seq<NodeId>, visited': seq<NodeId>)
  {
    forall j :: |visited| <= j < |visited'| ==>
      visited'[j] in g && g[visited'[j]].name.None? && visited'[j] !in visited
  }

  lemma ExtendsShrinksUnvisited<E, S, T>(g: Grammar<E, S, T>, visited: seq<NodeId>, visited': seq<NodeId>)
    requires Extends(visited, visited')
    ensures Unvisited(g, visited') <= Unvisited(g, visited)
  {
    forall id | id in visited ensures id in visited' {
      var j :| 0 <= j < |visited| && visited[j] == id;
      assert visited'[j] == id;
    }
  }

  /** Alternation.toStringSeparator. */
  function ToStringSeparator(): (r: string)
    ensures |r| == 1 && r[0] == '|'
  {
    "|"
  }

  /** Parser.toString(visited). The visited vector only grows, only by
      unnamed nodes, and never holds a node twice if it did not before. */
  function ToString<E, S, T>(g: Grammar<E, S, T>, id: NodeId, visited: seq<NodeId>): (r: Printed)
    requires Closed(g) && id in g
    ensures Extends(visited, r.visited) && AddsUnnamed(g, visited, r.visited)
    ensures NoRepeats(visited) ==> NoRepeats(r.visited)
    ensures g[id].name.None? && id !in visited ==> |visited| < |r.visited| && r.visited[|visited|] == id
    decreases Unvisited(g, visited), 0, 0
  {
    match g[id].name
    case Some(n) => Printed(n, visited)
    case None =>
      if id in visited then Printed("...", visited)
      else
        assert id in Unvisited(g, visited) - Unvisited(g, visited + [id]);
        ExtendsShrinksUnvisited(g, visited, visited + [id]);
        var r := UnvisitedString(g, id, visited + [id]);
        assert r.visited[..|visited| + 1][|visited|] == id;
        r
  }

  /** unvisitedString: the description of the node itself, its children
      printed with the visited vector. */
  function UnvisitedString<E, S, T>(g: Grammar<E, S, T>, id: NodeId, visited: seq<NodeId>): (r: Printed)
    requires Closed(g) && id in g
    ensures Extends(visited, r.visited) && AddsUnnamed(g, visited, r.visited)
    ensures NoRepeats(visited) ==> NoRepeats(r.visited)
    decreases Unvisited(g, visited), 2, 0
  {
    match g[id].kind
    case Empty => Printed(" empty ", visited)
    case Terminal(_, text) => Printed(text, visited)
    case Repetition(sub, _) =>
      var p := ToString(g, sub, visited);
      Printed(p.text + "*", p.visited)
    case Alternation(subs) => Join(g, subs, visited)
  }

  /** The descriptions of an alternation's subparsers, in order, separated
      by ToStringSeparator, each printed with the visited vector the previous
      ones left. */
  function Join<E, S, T>(g: Grammar<E, S, T>, subs: seq<NodeId>, visited: seq<NodeId>): (r: Printed)
    requires Closed(g) && forall j :: 0 <= j < |subs| ==> subs[j] in g
    ensures Extends(visited, r.visited) && AddsUnnamed(g, visited, r.visited)
    ensures NoRepeats(visited) ==> NoRepeats(r.visited)
    decreases Unvisited(g, visited), 1, |subs|
  {
    if |subs| == 0 then Printed("", visited)
    else
      var p := ToString(g, subs[0], visited);
      if |subs| == 1 then p
      else
        ExtendsShrinksUnvisited(g, visited, p.visited);
        var q := Join(g, subs[1..], p.visited);
        ChainWalks(g, visited, p.visited, q.visited);
        Printed(p.text + ToStringSeparator() + q.text, q.visited)
  }

  /** Two walks one after the other make one walk. */
  lemma ChainWalks<E, S, T>(g: Grammar<E, S, T>, u: seq<NodeId>, v: seq<NodeId>, w: seq<NodeId>)
    requires Extends(u, v) && Extends(v, w) && AddsUnnamed(g, u, v) && AddsUnnamed(g, v, w)
    ensures Extends(u, w) && AddsUnnamed(g, u, w)
  {
    assert w[..|u|] == w[..|v|][..|u|];
    forall j | |u| <= j < |w| ensures w[j] in g && g[w[j]].name.None? && w[j] !in u {
      if j < |v| {
        assert w[j] == w[..|v|][j];
      }
    }
  }

  /** The three cases of Parser.toString(visited): a named parser prints its
      name and leaves the visited vector alone; an unnamed parser already
      visited prints "..."; any other parser is appended to the visited
      vector, exactly once, before its own text is printed. */
  lemma ToStringCases<E, S, T>(g: Grammar<E, S, T>, id: NodeId, visited: seq<NodeId>)
    requires Closed(g) && id in g
    ensures g[id].name.Some? ==> ToString(g, id, visited) == Printed(g[id].name.value, visited)
    ensures g[id].name.None? && id in visited ==> ToString(g, id, visited) == Printed("...", visited)
    ensures g[id].name.None? && id !in visited ==>
              ToString(g, id, visited) == UnvisitedString(g, id, visited + [id])
    ensures g[id].name.None? && id !in visited && NoRepeats(visited) ==>
              forall j :: 0 <= j < |ToString(g, id, visited).visited| && ToString(g, id, visited).visited[j] == id ==>
                j == |visited|
  {
  }

  /** Parser.toString(): a walk from an empty visited vector. */
  function Describe<E, S, T>(g: Grammar<E, S, T>, id: NodeId): (r: string)
    requires Closed(g) && id in g
    ensures g[id].name.Some? ==> r == g[id].name.value
  {
    ToString(g, id, []).text
  }
}
