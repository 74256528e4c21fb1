/** The pipeline document: the part of it the graph, routing and readiness rules read. */
module Pipeline {
  import opened Graphs
  import opened Options
  import opened Yaml

  datatype NodeType = Agent | Start | End | Switch | Loop | Script

  datatype Node = Node(id: Id, nodeType: NodeType)

  /** Where an edge starts; it may carry several outputs of that node at once. */
  datatype EdgeSource = EdgeSource(node: Id, ports: seq<string>)

  datatype EdgeEndpoint = EdgeEndpoint(node: Id, port: string)

  datatype Edge = Edge(source: EdgeSource, target: EdgeEndpoint, when: Option<Value>, isElse: bool)
  {
    predicate Unconditional() {
      when.None? && !isElse
    }
  }

  datatype LoopKind = Bounded | Collection

  datatype LoopRegion = LoopRegion(id: string, kind: LoopKind, members: seq<Id>)

  datatype PipelineDef = PipelineDef(nodes: seq<Node>, edges: seq<Edge>, loops: seq<LoopRegion>)

  ghost predicate UniqueIds(p: PipelineDef) {
    forall i, j :: 0 <= i < j < |p.nodes| ==> p.nodes[i].id != p.nodes[j].id
  }

  function NodeIds(p: PipelineDef): set<Id> {
    set n | n in p.nodes :: n.id
  }

  /** Is some node of this id declared with this type? */
  predicate HasType(p: PipelineDef, id: Id, t: NodeType) {
    exists n :: n in p.nodes && n.id == id && n.nodeType == t
  }

  /** The edges both of whose ends are declared nodes. */
  ghost function DeclaredEdges(p: PipelineDef): EdgeSet {
    set e | e in p.edges && e.source.node in NodeIds(p) && e.target.node in NodeIds(p)
      :: (e.source.node, e.target.node)
  }

  /** A declared node has the type it is declared with and no other, and an id that is
      not declared has none. */
  lemma DeclaredType(p: PipelineDef, n: Node, id: Id, t: NodeType)
    requires UniqueIds(p)
    ensures n in p.nodes ==> (HasType(p, n.id, t) <==> t == n.nodeType)
    ensures (forall m :: m in p.nodes ==> m.id != id) ==> !HasType(p, id, t)
  {
  }
}
