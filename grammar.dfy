/**
 * Parser nodes. A grammar is an arena of nodes addressed by identifiers, so a
 * node can be shared by several parents and, for printing, a grammar may
 * refer back to an ancestor. Matching asks for more: the grammar must be
 * ordered (children have smaller identifiers, which rules out cycles) and
 * every repetition must wrap a node that consumes.
 */
module Grammars {
  import opened Wrappers
  import opened Assemblies

  type NodeId = nat

  datatype Kind<!E, !S, !T> =
    | Alternation(subparsers: seq<NodeId>)
    | Repetition(subparser: NodeId, preAssembler: Option<Assembler<E, S, T>>)
    | Empty
      /** A stand-in for the library's terminals: it matches when the next
          element qualifies and advances by one. */
    | Terminal(qualifies: E -> bool, text: string)

  /** Every parser has an optional name and an optional assembler. */
  datatype Node<!E, !S, !T> = Node(name: Option<string>, assembler: Option<Assembler<E, S, T>>, kind: Kind<E, S, T>)

  type Grammar<!E, !S, !T> = map<NodeId, Node<E, S, T>>

  /** Every node a kind refers to is in the grammar. */
  predicate ChildrenIn<E, S, T>(g: Grammar<E, S, T>, k: Kind<E, S, T>)
  {
    match k
    case Alternation(subs) => forall j :: 0 <= j < |subs| ==> subs[j] in g
    case Repetition(sub, _) => sub in g
    case Empty => true
    case Terminal(_, _) => true
  }

  /** Every node a kind refers to has an identifier below the bound. */
  predicate ChildrenBelow<E, S, T>(k: Kind<E, S, T>, bound: NodeId)
  {
    match k
    case Alternation(subs) => forall j :: 0 <= j < |subs| ==> subs[j] < bound
    case Repetition(sub, _) => sub < bound
    case Empty => true
    case Terminal(_, _) => true
  }

  /** Every reference points to a node of the grammar (cycles allowed). */
  predicate Closed<E, S, T>(g: Grammar<E, S, T>)
  {
    forall id :: id in g ==> ChildrenIn(g, g[id].kind)
  }

  /** Closed, and children come before their parents. */
  predicate Ordered<E, S, T>(g: Grammar<E, S, T>)
  {
    forall id :: id in g ==> ChildrenIn(g, g[id].kind) && ChildrenBelow(g[id].kind, id)
  }

  /** A node consumes when every assembly it produces has advanced past the
      assembly it came from. */
  predicate Consuming<E, S, T>(g: Grammar<E, S, T>, id: NodeId)
    requires Ordered(g) && id in g
    decreases id
  {
    match g[id].kind
    case Terminal(_, _) => true
    case Empty => false
    case Repetition(_, _) => false
    case Alternation(subs) => forall j :: 0 <= j < |subs| ==> Consuming(g, subs[j])
  }

  /** The grammars matching terminates on: ordered, and each repetition wraps
      a consuming node. */
  predicate WellFormed<E, S, T>(g: Grammar<E, S, T>)
  {
    && Ordered(g)
    && forall id :: id in g && g[id].kind.Repetition? ==> Consuming(g, g[id].kind.subparser)
  }

  /** Two grammars have the same shape when they have the same nodes and
      every node has the same kind and children; names, assemblers and
      pre-assemblers may differ. */
  predicate SameShape<E, S, T>(g: Grammar<E, S, T>, h: Grammar<E, S, T>)
  {
    && g.Keys == h.Keys
    && forall id :: id in g ==> SameKindShape(g[id].kind, h[id].kind)
  }

  predicate SameKindShape<E, S, T>(k: Kind<E, S, T>, l: Kind<E, S, T>)
  {
    match k
    case Alternation(subs) => l.Alternation? && l.subparsers == subs
    case Repetition(sub, _) => l.Repetition? && l.subparser == sub
    case Empty => l.Empty?
    case Terminal(_, _) => l.Terminal?
  }

  /** Whether a node consumes depends only on the shape of the grammar. */
  lemma {:induction false} SameShapeConsuming<E, S, T>(g: Grammar<E, S, T>, h: Grammar<E, S, T>, id: NodeId)
    requires Ordered(g) && Ordered(h) && SameShape(g, h) && id in g
    ensures Consuming(g, id) == Consuming(h, id)
    decreases id
  {
    match g[id].kind
    case Alternation(subs) =>
      forall j | 0 <= j < |subs| ensures Consuming(g, subs[j]) == Consuming(h, subs[j]) {
        SameShapeConsuming(g, h, subs[j]);
      }
    case Repetition(_, _) =>
    case Empty =>
    case Terminal(_, _) =>
  }

  /** A grammar of the same shape as a well-formed one is well formed. */
  lemma SameShapeWellFormed<E, S, T>(g: Grammar<E, S, T>, h: Grammar<E, S, T>)
    requires WellFormed(g) && SameShape(g, h)
    ensures WellFormed(h)
  {
    forall id | id in h
      ensures ChildrenIn(h, h[id].kind) && ChildrenBelow(h[id].kind, id)
    {
      assert SameKindShape(g[id].kind, h[id].kind);
    }
    forall id | id in h && h[id].kind.Repetition?
      ensures Consuming(h, h[id].kind.subparser)
    {
      assert SameKindShape(g[id].kind, h[id].kind);
      SameShapeConsuming(g, h, h[id].kind.subparser);
    }
  }

  /** Parser.getName: the name the node was given, if any. */
  function GetName<E, S, T>(g: Grammar<E, S, T>, id: NodeId): Option<string>
    requires id in g
  {
    g[id].name
  }

  /** Parser.setAssembler: replaces the node's assembler; None, the null
      assembler, removes it. Nothing else in the grammar changes. */
  function SetAssembler<E, S, T>(g: Grammar<E, S, T>, id: NodeId, a: Option<Assembler<E, S, T>>): (h: Grammar<E, S, T>)
    requires id in g
    ensures h.Keys == g.Keys && h[id].assembler == a
    ensures GetName(h, id) == GetName(g, id) && h[id].kind == g[id].kind
    ensures forall other :: other in g && other != id ==> h[other] == g[other]
    ensures SameShape(g, h)
  {
    g[id := g[id].(assembler := a)]
  }

  /** Repetition.setPreAssembler: replaces the pre-assembler of a repetition
      node, or removes it when given None; its subparser and everything else
      stay. */
  function SetPreAssembler<E, S, T>(g: Grammar<E, S, T>, id: NodeId, pre: Option<Assembler<E, S, T>>): (h: Grammar<E, S, T>)
    requires id in g && g[id].kind.Repetition?
    ensures h.Keys == g.Keys && h[id].kind == Repetition(g[id].kind.subparser, pre)
    ensures GetName(h, id) == GetName(g, id) && h[id].assembler == g[id].assembler
    ensures forall other :: other in g && other != id ==> h[other] == g[other]
    ensures SameShape(g, h)
  {
    g[id := g[id].(kind := g[id].kind.(preAssembler := pre))]
  }

  /** The Repetition constructors: a repetition of p, optionally named, with
      no assembler and no pre-assembler. */
  function NewRepetition<E, S, T>(p: NodeId, name: Option<string>): (n: Node<E, S, T>)
    ensures n.kind.Repetition? && GetSubparser(n) == p
    ensures n.name == name && n.assembler.None? && n.kind.preAssembler.None?
  {
    Node(name, None, Repetition(p, None))
  }

  /** Repetition.getSubparser. */
  function GetSubparser<E, S, T>(n: Node<E, S, T>): NodeId
    requires n.kind.Repetition?
  {
    n.kind.subparser
  }

  /** What ParserVisitor is asked to do when a node accepts it: the visit
      method for the node's kind, with the node and the visited vector. */
  datatype VisitorCall =
    | VisitAlternation(node: NodeId, visited: seq<NodeId>)
    | VisitRepetition(node: NodeId, visited: seq<NodeId>)
    | VisitEmpty(node: NodeId, visited: seq<NodeId>)
    | VisitTerminal(node: NodeId, visited: seq<NodeId>)

  /** accept(pv, visited): each kind calls its own visit method and no other. */
  function Accept<E, S, T>(g: Grammar<E, S, T>, id: NodeId, visited: seq<NodeId>): (c: VisitorCall)
    requires id in g
    ensures c.node == id && c.visited == visited
    ensures c.VisitAlternation? <==> g[id].kind.Alternation?
    ensures c.VisitRepetition? <==> g[id].kind.Repetition?
    ensures c.VisitEmpty? <==> g[id].kind.Empty?
  {
    match g[id].kind
    case Alternation(_) => VisitAlternation(id, visited)
    case Repetition(_, _) => VisitRepetition(id, visited)
    case Empty => VisitEmpty(id, visited)
    case Terminal(_, _) => VisitTerminal(id, visited)
  }

  /** Parser.accept(pv): starts with an empty visited vector. */
  function AcceptFresh<E, S, T>(g: Grammar<E, S, T>, id: NodeId): (c: VisitorCall)
    requires id in g
    ensures c == Accept(g, id, []) && c.visited == []
  {
    Accept(g, id, [])
  }

  /** Empty.randomExpansion: no elements, whatever the depths. */
  function EmptyRandomExpansion(maxDepth: int, depth: int): (r: seq<string>)
    ensures |r| == 0
  {
    []
  }

  /** SetAssembler and SetPreAssembler keep a grammar well formed. */
  lemma SettersKeepWellFormed<E, S, T>(g: Grammar<E, S, T>, id: NodeId, a: Option<Assembler<E, S, T>>)
    requires WellFormed(g) && id in g
    ensures WellFormed(SetAssembler(g, id, a))
    ensures g[id].kind.Repetition? ==> WellFormed(SetPreAssembler(g, id, a))
  {
    SameShapeWellFormed(g, SetAssembler(g, id, a));
    if g[id].kind.Repetition? {
      SameShapeWellFormed(g, SetPreAssembler(g, id, a));
    }
  }
}
