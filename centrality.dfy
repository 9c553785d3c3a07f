/**
  Betweenness centrality as the scripts receive it from
  `nx.betweenness_centrality`: a dict from node to score, seen here as its
  items in dict order. The scores themselves are never computed; a script
  takes the centrality call as a parameter that scores exactly the nodes of
  the graph it is given.
 */
module Centrality {
  import opened WeightedGraph

  /** One `(node, score)` item of the centrality dict. */
  datatype Scored = Scored(node: string, score: real)

  /** Dict items: no node twice. */
  predicate DistinctNodes(items: seq<Scored>)
  {
    forall i, j | 0 <= i < j < |items| :: items[i].node != items[j].node
  }

  function ScoredNodes(items: seq<Scored>): set<string>
  {
    set i | 0 <= i < |items| :: items[i].node
  }

  /** What `nx.betweenness_centrality(G)` returns for `g`: one item per node of `g`. */
  ghost predicate ScoresGraph(items: seq<Scored>, g: UGraph)
  {
    DistinctNodes(items) && ScoredNodes(items) == g.nodes
  }

  /** A centrality call that scores every graph it is given in that way. */
  ghost predicate IsCentrality(centrality: UGraph -> seq<Scored>)
  {
    forall g :: ScoresGraph(centrality(g), g)
  }
}
