/** The part of an Isolation board the decision engine sees. */
module Board {
  import opened Scores

  /** What the evaluation functions read of a board, from the agent's point
      of view: whether it has lost or won, its and its opponent's numbers of
      legal moves, and the number of blank cells. */
  datatype Features = Features(loser: bool, winner: bool, myMoves: nat, oppMoves: nat, blankSpaces: nat)

  /** Every legal move goes to a blank cell, so a board on which the
      opponent can move has at least one blank cell. */
  type Position = f: Features | f.oppMoves > 0 ==> f.blankSpaces > 0
    witness Features(false, false, 0, 0, 0)

  /** The game tree below a board: `children` are the legal moves of the side
      to move, in the order the board enumerates them, each with the board it
      leads to. This stands for `get_legal_moves` and `forecast_move`. */
  datatype Node = Node(pos: Position, children: seq<Edge>)

  datatype Edge = Edge(move: Move, next: Node)
}
