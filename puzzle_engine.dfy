/**
 * The puzzle object that the search core consumes but does not implement.
 *
 * Its rotations, its goal test and its size live outside the core, so they
 * enter the model as parameters: a `PuzzleModel` bundles them as total
 * functions over serialized configurations. Everything the core does with a
 * puzzle goes through `ApplyMove`, the dispatch on a move's type tag.
 */
module PuzzleEngine {

  /** A serialized configuration, as `export_state` returns it; used as a map key. */
  type State = string

  /** The three rotation type tags a move may carry. */
  const Horizontal: string := "horizontal"
  const Vertical: string := "vertical"
  const Sideways: string := "sideways"
  const RotationTypes: seq<string> := [Horizontal, Vertical, Sideways]

  /** A move `(type, layer, direction)`; the type is a free string, so unknown tags can occur. */
  datatype Move = Move(kind: string, layer: int, direction: int)

  /** The rotations, the goal test and the size of the external puzzle, as functions of a configuration. */
  datatype PuzzleModel = PuzzleModel(
    horizontal: (State, int, int) -> State,
    vertical: (State, int, int) -> State,
    lateral: (State, int, int) -> State,
    isGoal: State -> bool,
    sizeOf: State -> int)

  /** The configuration after one move: a known tag selects one rotation, any other tag changes nothing. */
  function ApplyMove(p: PuzzleModel, s: State, m: Move): State
  {
    if m.kind == Horizontal then p.horizontal(s, m.layer, m.direction)
    else if m.kind == Vertical then p.vertical(s, m.layer, m.direction)
    else if m.kind == Sideways then p.lateral(s, m.layer, m.direction)
    else s
  }

  /** The configuration after applying `moves` from the first to the last. */
  function Replay(p: PuzzleModel, s: State, moves: seq<Move>): State
    decreases |moves|
  {
    if moves == [] then s else Replay(p, ApplyMove(p, s, moves[0]), moves[1..])
  }

  /** A puzzle object whose configuration its rotation methods change in place. */
  class CubicPuzzle {
    const model: PuzzleModel
    var configuration: State

    constructor (model: PuzzleModel, configuration: State)
      ensures this.model == model && this.configuration == configuration
    {
      this.model := model;
      this.configuration := configuration;
    }

    method ExecuteHorizontalRotation(layer: int, direction: int)
      modifies this
      ensures configuration == model.horizontal(old(configuration), layer, direction)
    {
      configuration := model.horizontal(configuration, layer, direction);
    }

    method ExecuteVerticalRotation(layer: int, direction: int)
      modifies this
      ensures configuration == model.vertical(old(configuration), layer, direction)
    {
      configuration := model.vertical(configuration, layer, direction);
    }

    method ExecuteLateralRotation(layer: int, direction: int)
      modifies this
      ensures configuration == model.lateral(old(configuration), layer, direction)
    {
      configuration := model.lateral(configuration, layer, direction);
    }
  }
}
