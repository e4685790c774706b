/**
 * The driver's two pieces of logic: the move catalog it hands to the
 * knowledge-base builder, and the replay of a solution on a puzzle object.
 */
module PuzzleRunner {
  import opened PuzzleEngine
  import SearchAlgorithm

  /**
   * `generate_move_catalog`: the same comprehension as the search engine's
   * catalog, so the builder and the solver agree on the move set. It holds
   * every well-formed move of the size exactly once.
   */
  function GenerateMoveCatalog(puzzleSize: int): (r: seq<Move>)
    ensures r == SearchAlgorithm.GenerateAllMoves(puzzleSize)
    ensures |r| == 6 * SearchAlgorithm.RangeLength(puzzleSize)
    ensures forall m :: m in r <==> SearchAlgorithm.IsCatalogMove(puzzleSize, m)
    ensures forall i, j :: 0 <= i < j < |r| ==> r[i] != r[j]
  {
    SearchAlgorithm.CatalogFacts(puzzleSize);
    SearchAlgorithm.CatalogLength(puzzleSize);
    SearchAlgorithm.ForKinds(RotationTypes, [0, 1], puzzleSize)
  }

  /** Replaying a concatenation replays its parts one after the other. */
  lemma {:induction false} ReplayAppend(p: PuzzleModel, s: State, a: seq<Move>, b: seq<Move>)
    ensures Replay(p, s, a + b) == Replay(p, Replay(p, s, a), b)
    decreases |a|
  {
    if a != [] {
      assert (a + b)[0] == a[0];
      assert (a + b)[1..] == a[1..] + b;
      ReplayAppend(p, ApplyMove(p, s, a[0]), a[1..], b);
    } else {
      assert a + b == b;
    }
  }

  /** Replaying one more move applies it to the configuration reached so far. */
  lemma ReplaySnoc(p: PuzzleModel, s: State, a: seq<Move>, m: Move)
    ensures Replay(p, s, a + [m]) == ApplyMove(p, Replay(p, s, a), m)
  {
    ReplayAppend(p, s, a, [m]);
    assert [m][1..] == [];
  }

  /** A move with an unknown type tag can be dropped from a sequence without changing the outcome. */
  lemma ReplaySkipsUnknown(p: PuzzleModel, s: State, a: seq<Move>, m: Move, b: seq<Move>)
    requires m.kind !in RotationTypes
    ensures Replay(p, s, a + [m] + b) == Replay(p, s, a + b)
  {
    ReplayAppend(p, s, a + [m], b);
    ReplaySnoc(p, s, a, m);
    ReplayAppend(p, s, a, b);
  }

  /**
   * `apply_solution_moves`: apply the moves in order to the puzzle object;
   * a move with an unknown type tag is skipped. The puzzle ends in the
   * configuration `Replay` computes.
   */
  method ApplySolutionMoves(puzzle: CubicPuzzle, moveSequence: seq<Move>)
    modifies puzzle
    ensures puzzle.configuration == Replay(puzzle.model, old(puzzle.configuration), moveSequence)
  {
    for i := 0 to |moveSequence|
      invariant puzzle.configuration == Replay(puzzle.model, old(puzzle.configuration), moveSequence[..i])
    {
      var move := moveSequence[i];
      if move.kind == Horizontal {
        puzzle.ExecuteHorizontalRotation(move.layer, move.direction);
      } else if move.kind == Vertical {
        puzzle.ExecuteVerticalRotation(move.layer, move.direction);
      } else if move.kind == Sideways {
        puzzle.ExecuteLateralRotation(move.layer, move.direction);
      }
      ReplaySnoc(puzzle.model, old(puzzle.configuration), moveSequence[..i], move);
      assert moveSequence[..i + 1] == moveSequence[..i] + [move];
    }
    assert moveSequence[..|moveSequence|] == moveSequence;
  }
}
