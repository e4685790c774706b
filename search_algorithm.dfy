/**
 * The adaptive search engine: its move catalog, its heuristic lookup and its
 * greedy, threshold-bounded depth-first descent.
 */
module SearchAlgorithm {
  import opened Wrappers
  import opened PuzzleEngine

  // ---------------------------------------------------------------------------
  // Move catalog
  // ---------------------------------------------------------------------------

  /** `range(n)` has no elements when `n` is negative. */
  function RangeLength(n: int): nat
  {
    if n < 0 then 0 else n
  }

  /** `[(kind, layer, direction) for layer in range(n)]` */
  function ForLayers(kind: string, direction: int, n: int): seq<Move>
  {
    seq(RangeLength(n), layer => Move(kind, layer, direction))
  }

  /** `[(kind, layer, d) for d in directions for layer in range(n)]` */
  function ForDirections(kind: string, directions: seq<int>, n: int): seq<Move>
  {
    if directions == [] then []
    else ForLayers(kind, directions[0], n) + ForDirections(kind, directions[1..], n)
  }

  /** `[(k, layer, d) for k in kinds for d in directions for layer in range(n)]` */
  function ForKinds(kinds: seq<string>, directions: seq<int>, n: int): seq<Move>
  {
    if kinds == [] then []
    else ForDirections(kinds[0], directions, n) + ForKinds(kinds[1..], directions, n)
  }

  /** A move the catalog of size `n` may contain. */
  predicate IsCatalogMove(n: int, m: Move)
  {
    m.kind in RotationTypes && 0 <= m.layer < n && 0 <= m.direction <= 1
  }

  /** `range(n)` contributes one move per layer. */
  lemma ForLayersAt(kind: string, direction: int, n: int)
    ensures |ForLayers(kind, direction, n)| == RangeLength(n)
    ensures forall l :: 0 <= l < RangeLength(n) ==> ForLayers(kind, direction, n)[l] == Move(kind, l, direction)
  {
  }

  lemma MulStep(x: int, m: int)
    ensures (x + 1) * m == x * m + m
  {
  }

  lemma {:induction false} MulAtLeast(x: int, m: int)
    requires x >= 1 && m > 0
    ensures x * m >= m
    decreases x
  {
    if x > 1 {
      MulAtLeast(x - 1, m);
      MulStep(x - 1, m);
    }
  }

  /** Division and remainder are determined by a decomposition `i == q * m + r` with `0 <= r < m`. */
  lemma DivModOf(i: int, m: int, q: int, r: int)
    requires 0 < m && 0 <= r < m && i == q * m + r
    ensures i / m == q && i % m == r
  {
    var q', r' := i / m, i % m;
    assert i == q' * m + r';
    assert (q' - q) * m == r - r' by { assert (q' - q) * m == q' * m - q * m; }
    if q' - q >= 1 {
      MulAtLeast(q' - q, m);
      assert false;
    }
    if q - q' >= 1 {
      MulAtLeast(q - q', m);
      assert false;
    }
  }

  /** `k * w` by repeated addition, which keeps the sequence lemmas below linear. */
  function Times(k: nat, w: nat): nat
  {
    if k == 0 then 0 else Times(k - 1, w) + w
  }

  lemma {:induction false} TimesIsMul(k: nat, w: nat)
    ensures Times(k, w) == k * w
  {
    if k > 0 {
      TimesIsMul(k - 1, w);
      MulStep(k - 1, w);
    }
  }

  lemma {:induction false} TimesMonotone(k: nat, k': nat, w: nat)
    requires k < k'
    ensures Times(k, w) + w <= Times(k', w)
    decreases k'
  {
    if k + 1 < k' {
      TimesMonotone(k, k' - 1, w);
    }
  }

  lemma {:induction false} ForDirectionsSize(kind: string, directions: seq<int>, n: int)
    ensures |ForDirections(kind, directions, n)| == Times(|directions|, RangeLength(n))
    decreases |directions|
  {
    if directions != [] {
      ForDirectionsSize(kind, directions[1..], n);
    }
  }

  lemma {:induction false} ForKindsSize(kinds: seq<string>, directions: seq<int>, n: int)
    ensures |ForKinds(kinds, directions, n)| == Times(|kinds|, Times(|directions|, RangeLength(n)))
    decreases |kinds|
  {
    if kinds != [] {
      ForDirectionsSize(kinds[0], directions, n);
      ForKindsSize(kinds[1..], directions, n);
    }
  }

  /** Direction `d` of a type occupies the `d`-th block of `n` moves. */
  lemma {:induction false} ForDirectionsAt(kind: string, directions: seq<int>, n: int, d: nat, l: int)
    requires d < |directions| && 0 <= l < RangeLength(n)
    ensures Times(d, RangeLength(n)) + l < |ForDirections(kind, directions, n)|
    ensures ForDirections(kind, directions, n)[Times(d, RangeLength(n)) + l] == Move(kind, l, directions[d])
    decreases |directions|
  {
    ForLayersAt(kind, directions[0], n);
    ForDirectionsSize(kind, directions, n);
    TimesMonotone(d, |directions|, RangeLength(n));
    if d > 0 {
      ForDirectionsAt(kind, directions[1..], n, d - 1, l);
    }
  }

  /** Type `t` occupies the `t`-th block of `|directions| * n` moves. */
  lemma {:induction false} ForKindsAt(kinds: seq<string>, directions: seq<int>, n: int, t: nat, j: int)
    requires t < |kinds| && 0 <= j < Times(|directions|, RangeLength(n))
    ensures j < |ForDirections(kinds[t], directions, n)|
    ensures Times(t, Times(|directions|, RangeLength(n))) + j < |ForKinds(kinds, directions, n)|
    ensures ForKinds(kinds, directions, n)[Times(t, Times(|directions|, RangeLength(n))) + j]
         == ForDirections(kinds[t], directions, n)[j]
    decreases |kinds|
  {
    var w := Times(|directions|, RangeLength(n));
    var head := ForDirections(kinds[0], directions, n);
    var rest := ForKinds(kinds[1..], directions, n);
    ForDirectionsSize(kinds[t], directions, n);
    ForDirectionsSize(kinds[0], directions, n);
    if t == 0 {
      ConcatAt(head, rest, j);
    } else {
      ForKindsAt(kinds[1..], directions, n, t - 1, j);
      assert kinds[1..][t - 1] == kinds[t];
      ConcatAt(head, rest, |head| + (Times(t - 1, w) + j));
    }
  }

  /** Indexing a concatenation reads the first part, then the second. */
  lemma ConcatAt<T>(a: seq<T>, b: seq<T>, i: int)
    requires 0 <= i < |a| + |b|
    ensures (a + b)[i] == if i < |a| then a[i] else b[i - |a|]
  {
  }

  /** Block `t` of width `2w`, then block `d` of width `w`, start where block `2t + d` of width `w` does. */
  lemma {:induction false} TimesBlock(t: nat, d: nat, w: nat)
    ensures Times(t, Times(2, w)) + Times(d, w) == Times(2 * t + d, w)
    decreases t
  {
    if t > 0 {
      TimesBlock(t - 1, d, w);
      assert Times(2 * t + d, w) == Times(2 * t + d - 1, w) + w;
      assert Times(2 * t + d - 1, w) == Times(2 * (t - 1) + d, w) + w;
      assert Times(1, w) == w;
      assert Times(2, w) == w + w;
    }
  }

  /** `k` blocks of `range(n)` span `k * n` entries. */
  lemma TimesLayers(k: nat, n: int)
    requires 0 < n
    ensures Times(k, RangeLength(n)) == k * n
  {
    TimesIsMul(k, RangeLength(n));
  }

  /** Entry `(2t + d) * n + l` of the catalog is the move of type `t`, layer `l`, direction `d`. */
  lemma CatalogEntry(n: int, t: int, d: int, l: int)
    requires 0 <= t < 3 && 0 <= d < 2 && 0 <= l < n
    ensures |ForKinds(RotationTypes, [0, 1], n)| == 6 * n
    ensures 0 <= (2 * t + d) * n + l < |ForKinds(RotationTypes, [0, 1], n)|
    ensures ForKinds(RotationTypes, [0, 1], n)[(2 * t + d) * n + l] == Move(RotationTypes[t], l, d)
  {
    var directions := [0, 1];
    PairedEntry(RotationTypes, directions, n, t, d, l);
    assert directions[d] == d;
    CatalogLength(n);
  }

  /** With two directions, type `t`, direction `d`, layer `l` sits at index `(2t + d) * n + l`. */
  lemma PairedEntry(kinds: seq<string>, directions: seq<int>, n: int, t: nat, d: nat, l: int)
    requires |directions| == 2 && t < |kinds| && d < 2 && 0 <= l < n
    ensures (2 * t + d) * n + l < |ForKinds(kinds, directions, n)|
    ensures ForKinds(kinds, directions, n)[(2 * t + d) * n + l] == Move(kinds[t], l, directions[d])
  {
    var index := Times(t, Times(|directions|, RangeLength(n))) + (Times(d, RangeLength(n)) + l);
    ForKindsEntry(kinds, directions, n, t, d, l);
    assert index == (2 * t + d) * n + l by {
      CatalogOffset(n, t, d);
    }
  }

  /** Type `t`, direction `d`, layer `l` sits at block `t` of the types, block `d` of the directions, offset `l`. */
  lemma ForKindsEntry(kinds: seq<string>, directions: seq<int>, n: int, t: nat, d: nat, l: int)
    requires t < |kinds| && d < |directions| && 0 <= l < RangeLength(n)
    ensures Times(t, Times(|directions|, RangeLength(n))) + (Times(d, RangeLength(n)) + l) < |ForKinds(kinds, directions, n)|
    ensures ForKinds(kinds, directions, n)[Times(t, Times(|directions|, RangeLength(n))) + (Times(d, RangeLength(n)) + l)]
         == Move(kinds[t], l, directions[d])
  {
    var j := Times(d, RangeLength(n)) + l;
    var block := ForDirections(kinds[t], directions, n);
    ForDirectionsSize(kinds[t], directions, n);
    ForDirectionsAt(kinds[t], directions, n, d, l);
    assert block[j] == Move(kinds[t], l, directions[d]);
    ForKindsAt(kinds, directions, n, t, j);
    assert ForKinds(kinds, directions, n)[Times(t, Times(|directions|, RangeLength(n))) + j] == block[j];
  }

  /** Block `t` of the types, then block `d` of the directions, start at `(2t + d) * n`. */
  lemma CatalogOffset(n: int, t: nat, d: nat)
    requires 0 < n
    ensures Times(t, Times(2, RangeLength(n))) + Times(d, RangeLength(n)) == (2 * t + d) * n
  {
    TimesBlock(t, d, RangeLength(n));
    TimesLayers(2 * t + d, n);
  }

  /** The quotient of `i < k * m` by `m` is below `k`. */
  lemma QuotientBelow(i: int, m: int, k: int)
    requires 0 < m && 0 <= i < k * m
    ensures 0 <= i / m < k && i == (i / m) * m + i % m && 0 <= i % m < m
  {
    var q := i / m;
    assert i == q * m + i % m;
    if q < 0 {
      MulAtLeast(-q, m);
      assert false;
    }
    if q >= k {
      if q > k {
        MulAtLeast(q - k, m);
      }
      assert false;
    }
  }

  /** Catalog index `i` splits as `(2t + d) * n + l` with `t = i / 2n`, `d = (i / n) % 2`, `l = i % n`. */
  lemma CatalogIndexSplit(n: int, i: int) returns (t: int, d: int, l: int)
    requires 0 < n && 0 <= i < 6 * n
    ensures 0 <= t < 3 && 0 <= d < 2 && 0 <= l < n && i == (2 * t + d) * n + l
    ensures t == i / (2 * n) && d == (i / n) % 2 && l == i % n
  {
    assert 6 * n == 3 * (2 * n);
    QuotientBelow(i, 2 * n, 3);
    t := i / (2 * n);
    var j := i % (2 * n);
    QuotientBelow(j, n, 2);
    d, l := j / n, j % n;
    assert i == (2 * t + d) * n + l by {
      assert t * (2 * n) == (2 * t) * n;
      assert (2 * t) * n + d * n == (2 * t + d) * n;
    }
    DivModOf(i, n, 2 * t + d, l);
    DivModOf(2 * t + d, 2, t, d);
  }

  /** Entry `i` of the catalog: its type is `i / 2n`, its layer `i % n`, its direction `(i / n) % 2`. */
  lemma CatalogAt(n: int, i: int)
    requires 0 < n && 0 <= i < 6 * n
    ensures |ForKinds(RotationTypes, [0, 1], n)| == 6 * n
    ensures 0 <= i / (2 * n) < 3
      && ForKinds(RotationTypes, [0, 1], n)[i] == Move(RotationTypes[i / (2 * n)], i % n, (i / n) % 2)
    ensures i == (2 * (i / (2 * n)) + (i / n) % 2) * n + i % n
  {
    var t, d, l := CatalogIndexSplit(n, i);
    CatalogEntry(n, t, d, l);
  }

  /** The catalog of size `n` has six blocks of `range(n)`. */
  lemma CatalogLength(n: int)
    ensures |ForKinds(RotationTypes, [0, 1], n)| == 6 * RangeLength(n)
  {
    ForKindsSize(RotationTypes, [0, 1], n);
    TimesIsMul(2, RangeLength(n));
    TimesIsMul(3, Times(2, RangeLength(n)));
  }

  /** Every well-formed move of size `n` is in the catalog. */
  lemma CatalogComplete(n: int, m: Move)
    requires IsCatalogMove(n, m)
    ensures m in ForKinds(RotationTypes, [0, 1], n)
  {
    var t := if m.kind == Horizontal then 0 else if m.kind == Vertical then 1 else 2;
    CatalogEntry(n, t, m.direction, m.layer);
    var i := (2 * t + m.direction) * n + m.layer;
    assert ForKinds(RotationTypes, [0, 1], n)[i] == m;
  }

  /** Every move in the catalog of size `n` is well formed. */
  lemma CatalogSound(n: int, m: Move)
    requires m in ForKinds(RotationTypes, [0, 1], n)
    ensures IsCatalogMove(n, m)
  {
    var c := ForKinds(RotationTypes, [0, 1], n);
    CatalogLength(n);
    var i :| 0 <= i < |c| && c[i] == m;
    CatalogAt(n, i);
  }

  /** Every well-formed move of size `n` is in the catalog, and nothing else is. */
  lemma CatalogMembership(n: int, m: Move)
    ensures m in ForKinds(RotationTypes, [0, 1], n) <==> IsCatalogMove(n, m)
  {
    if IsCatalogMove(n, m) {
      CatalogComplete(n, m);
    }
    if m in ForKinds(RotationTypes, [0, 1], n) {
      CatalogSound(n, m);
    }
  }

  /** No move occurs twice in the catalog. */
  lemma CatalogDistinct(n: int, i: int, j: int)
    requires 0 < n && 0 <= i < j < 6 * n
    ensures |ForKinds(RotationTypes, [0, 1], n)| == 6 * n
      && ForKinds(RotationTypes, [0, 1], n)[i] != ForKinds(RotationTypes, [0, 1], n)[j]
  {
    CatalogAt(n, i);
    CatalogAt(n, j);
  }

  /**
   * `_generate_all_moves`: the ordered list of the moves of a puzzle of size
   * `n`, type in the outer loop, then direction, then layer.
   */
  function GenerateAllMoves(puzzleSize: int): (r: seq<Move>)
    ensures |r| == 6 * RangeLength(puzzleSize)
  {
    CatalogLength(puzzleSize);
    ForKinds(RotationTypes, [0, 1], puzzleSize)
  }

  /**
   * The catalog of size `n` holds exactly the moves with a known type, a layer
   * below `n` and direction 0 or 1; entry `i` is `(types[i / 2n], i % n, (i / n) % 2)`;
   * no move occurs twice.
   */
  lemma CatalogFacts(n: int)
    ensures forall m :: m in GenerateAllMoves(n) <==> IsCatalogMove(n, m)
    ensures forall i :: 0 <= i < |GenerateAllMoves(n)| ==>
      (0 <= i / (2 * n) < 3
       && GenerateAllMoves(n)[i] == Move(RotationTypes[i / (2 * n)], i % n, (i / n) % 2))
    ensures forall i, j :: 0 <= i < j < |GenerateAllMoves(n)| ==> GenerateAllMoves(n)[i] != GenerateAllMoves(n)[j]
  {
    forall m ensures m in GenerateAllMoves(n) <==> IsCatalogMove(n, m) {
      CatalogMembership(n, m);
    }
    forall i | 0 <= i < |GenerateAllMoves(n)|
      ensures 0 <= i / (2 * n) < 3
        && GenerateAllMoves(n)[i] == Move(RotationTypes[i / (2 * n)], i % n, (i / n) % 2)
    {
      CatalogAt(n, i);
    }
    forall i, j | 0 <= i < j < |GenerateAllMoves(n)|
      ensures GenerateAllMoves(n)[i] != GenerateAllMoves(n)[j]
    {
      CatalogDistinct(n, i, j);
    }
  }

  // ---------------------------------------------------------------------------
  // Greedy threshold search
  // ---------------------------------------------------------------------------

  /** A successor configuration together with the move that produces it. */
  datatype Candidate = Candidate(next: State, move: Move)

  /** How one call of the depth-limited search ends; `TypeError` is the exception Python raises
      when the threshold it compares against is `None`. */
  datatype SearchOutcome = Found | NotFound | TypeError

  /** How `solve_puzzle` ends: a move list, the exception, or the iteration budget spent. */
  datatype SolveResult = Solution(moves: seq<Move>) | Raised | OutOfFuel

  function MinInt(a: int, b: int): int
  {
    if a <= b then a else b
  }

  /** The next threshold after `if next is None or optimum < next: next = optimum`. */
  function Lowered(next: Option<int>, optimum: int): int
  {
    if next.None? then optimum else MinInt(next.value, optimum)
  }

  /** `path`, applied from `s`, reaches a goal configuration. */
  predicate Solves(p: PuzzleModel, s: State, path: seq<Move>)
  {
    p.isGoal(Replay(p, s, path))
  }

  /** A path solves from `s` when its first move leads to a configuration its remainder solves. */
  lemma SolvesStep(p: PuzzleModel, s: State, path: seq<Move>, k: nat)
    requires k < |path| && Solves(p, ApplyMove(p, s, path[k]), path[k + 1..])
    ensures Solves(p, s, path[k..])
  {
    assert path[k..][0] == path[k] && path[k..][1..] == path[k + 1..];
  }

  class AdaptiveSearchEngine {
    const puzzle: PuzzleModel
    const depthCeiling: int
    const heuristicDb: map<State, int>
    var currentThreshold: Option<int>
    var nextThreshold: Option<int>
    var solutionPath: seq<Move>

    constructor (puzzle: PuzzleModel, knowledgeBase: map<State, int>, depthLimit: int)
      ensures this.puzzle == puzzle && heuristicDb == knowledgeBase && depthCeiling == depthLimit
      ensures currentThreshold == Some(depthLimit) && nextThreshold == None && solutionPath == []
    {
      this.puzzle := puzzle;
      depthCeiling := depthLimit;
      currentThreshold := Some(depthLimit);
      nextThreshold := None;
      heuristicDb := knowledgeBase;
      solutionPath := [];
    }

    /** `_apply_move`: dispatch on the move's type tag to one rotation of the puzzle object; an unknown tag does nothing. */
    method ApplyMoveTo(target: CubicPuzzle, move: Move)
      modifies target
      ensures target.configuration == ApplyMove(target.model, old(target.configuration), move)
    {
      if move.kind == Horizontal {
        target.ExecuteHorizontalRotation(move.layer, move.direction);
      } else if move.kind == Vertical {
        target.ExecuteVerticalRotation(move.layer, move.direction);
      } else if move.kind == Sideways {
        target.ExecuteLateralRotation(move.layer, move.direction);
      }
    }

    /** `_get_heuristic_value`: the stored distance of a known state, the depth ceiling otherwise. */
    function GetHeuristicValue(state: State): (h: int)
      ensures state in heuristicDb ==> h == heuristicDb[state]
      ensures state !in heuristicDb ==> h == depthCeiling
    {
      if state in heuristicDb then heuristicDb[state] else depthCeiling
    }

    /** `cost_so_far` plus the heuristic value of the configuration one move ahead. */
    function TotalCost(state: State, costSoFar: int, m: Move): int
    {
      costSoFar + GetHeuristicValue(ApplyMove(puzzle, state, m))
    }

    /** The least total cost over a nonempty list of moves. */
    function MinTotal(state: State, costSoFar: int, moves: seq<Move>): int
      requires moves != []
      decreases |moves|
    {
      if |moves| == 1 then TotalCost(state, costSoFar, moves[0])
      else MinInt(MinTotal(state, costSoFar, moves[..|moves| - 1]), TotalCost(state, costSoFar, moves[|moves| - 1]))
    }

    /** The successors whose total cost is `optimum`, in the order of `moves`. */
    function Ties(state: State, costSoFar: int, moves: seq<Move>, optimum: int): seq<Candidate>
      decreases |moves|
    {
      if moves == [] then []
      else
        var m := moves[|moves| - 1];
        Ties(state, costSoFar, moves[..|moves| - 1], optimum)
          + (if TotalCost(state, costSoFar, m) == optimum then [Candidate(ApplyMove(puzzle, state, m), m)] else [])
    }

    /** No move of `moves` costs less than `MinTotal`. */
    lemma {:induction false} MinTotalIsLowerBound(state: State, costSoFar: int, moves: seq<Move>)
      requires moves != []
      ensures forall j :: 0 <= j < |moves| ==> MinTotal(state, costSoFar, moves) <= TotalCost(state, costSoFar, moves[j])
      decreases |moves|
    {
      var last := |moves| - 1;
      if |moves| > 1 {
        var init := moves[..last];
        MinTotalIsLowerBound(state, costSoFar, init);
        forall j | 0 <= j < |moves|
          ensures MinTotal(state, costSoFar, moves) <= TotalCost(state, costSoFar, moves[j])
        {
          if j < last {
            assert init[j] == moves[j];
          }
        }
      }
    }

    /** Some move of `moves` costs exactly `MinTotal`. */
    lemma {:induction false} MinTotalIsAttained(state: State, costSoFar: int, moves: seq<Move>)
      requires moves != []
      ensures exists j :: 0 <= j < |moves| && MinTotal(state, costSoFar, moves) == TotalCost(state, costSoFar, moves[j])
      decreases |moves|
    {
      var last := |moves| - 1;
      if |moves| > 1 {
        var init := moves[..last];
        MinTotalIsAttained(state, costSoFar, init);
        if MinTotal(state, costSoFar, init) <= TotalCost(state, costSoFar, moves[last]) {
          var j :| 0 <= j < |init| && MinTotal(state, costSoFar, init) == TotalCost(state, costSoFar, init[j]);
          assert init[j] == moves[j];
          assert MinTotal(state, costSoFar, moves) == TotalCost(state, costSoFar, moves[j]);
        } else {
          assert MinTotal(state, costSoFar, moves) == TotalCost(state, costSoFar, moves[last]);
        }
      } else {
        assert MinTotal(state, costSoFar, moves) == TotalCost(state, costSoFar, moves[0]);
      }
    }

    /** A candidate is a tie exactly when it is the successor of a listed move of cost `optimum`. */
    lemma {:induction false} TiesMembers(state: State, costSoFar: int, moves: seq<Move>, optimum: int, c: Candidate)
      ensures c in Ties(state, costSoFar, moves, optimum) <==>
        exists j :: 0 <= j < |moves| && c == Candidate(ApplyMove(puzzle, state, moves[j]), moves[j])
                                     && TotalCost(state, costSoFar, moves[j]) == optimum
      decreases |moves|
    {
      if moves != [] {
        var init := moves[..|moves| - 1];
        TiesMembers(state, costSoFar, init, optimum, c);
        assert forall j :: 0 <= j < |init| ==> init[j] == moves[j];
      }
    }

    /** No move of `moves` costs `optimum` or less, so nothing ties with it. */
    lemma {:induction false} TiesBelowMinimum(state: State, costSoFar: int, moves: seq<Move>, optimum: int)
      requires forall j :: 0 <= j < |moves| ==> optimum < TotalCost(state, costSoFar, moves[j])
      ensures Ties(state, costSoFar, moves, optimum) == []
      decreases |moves|
    {
      if moves != [] {
        var init := moves[..|moves| - 1];
        assert forall j :: 0 <= j < |init| ==> init[j] == moves[j];
        TiesBelowMinimum(state, costSoFar, init, optimum);
      }
    }

    /** The state of the scan after the first `i` moves: none reached a goal, `optimal` is their least
        total cost (absent before the first move) and `candidates` are the ties at that cost. */
    ghost predicate Scanned(state: State, costSoFar: int, moves: seq<Move>, i: int,
                            optimal: Option<int>, candidates: seq<Candidate>)
    {
      && 0 <= i <= |moves|
      && (forall j :: 0 <= j < i ==> !puzzle.isGoal(ApplyMove(puzzle, state, moves[j])))
      && (optimal.None? <==> i == 0)
      && (optimal.None? ==> candidates == [])
      && (optimal.Some? ==>
            && optimal.value == MinTotal(state, costSoFar, moves[..i])
            && candidates == Ties(state, costSoFar, moves[..i], optimal.value)
            && candidates != [])
    }

    /** One iteration of the scan over a move that does not reach a goal keeps `Scanned`. */
    lemma ScanStep(state: State, costSoFar: int, moves: seq<Move>, i: int,
                   optimal: Option<int>, candidates: seq<Candidate>,
                   optimal': Option<int>, candidates': seq<Candidate>)
      requires Scanned(state, costSoFar, moves, i, optimal, candidates) && i < |moves|
      requires !puzzle.isGoal(ApplyMove(puzzle, state, moves[i]))
      requires optimal.None? || TotalCost(state, costSoFar, moves[i]) < optimal.value ==>
        optimal' == Some(TotalCost(state, costSoFar, moves[i]))
        && candidates' == [Candidate(ApplyMove(puzzle, state, moves[i]), moves[i])]
      requires optimal.Some? && TotalCost(state, costSoFar, moves[i]) == optimal.value ==>
        optimal' == optimal && candidates' == candidates + [Candidate(ApplyMove(puzzle, state, moves[i]), moves[i])]
      requires optimal.Some? && TotalCost(state, costSoFar, moves[i]) > optimal.value ==>
        optimal' == optimal && candidates' == candidates
      ensures Scanned(state, costSoFar, moves, i + 1, optimal', candidates')
    {
      var prefix := moves[..i + 1];
      assert prefix[..i] == moves[..i];
      assert prefix[i] == moves[i];
      if optimal.Some? && TotalCost(state, costSoFar, moves[i]) < optimal.value {
        MinTotalIsLowerBound(state, costSoFar, moves[..i]);
        TiesBelowMinimum(state, costSoFar, moves[..i], TotalCost(state, costSoFar, moves[i]));
      }
    }

    /**
     * The loop of `_depth_limited_search` over the catalog. It stops at the
     * first move that reaches a goal; otherwise it finds the least total cost
     * and keeps every successor of that cost, in catalog order.
     */
    method ScanMoves(state: State, costSoFar: int, moves: seq<Move>)
      returns (goalMove: Option<Move>, optimal: Option<int>, candidates: seq<Candidate>)
      ensures goalMove.Some? ==>
        exists k :: (0 <= k < |moves| && moves[k] == goalMove.value
          && puzzle.isGoal(ApplyMove(puzzle, state, moves[k]))
          && forall j :: 0 <= j < k ==> !puzzle.isGoal(ApplyMove(puzzle, state, moves[j])))
      ensures goalMove.None? ==> forall j :: 0 <= j < |moves| ==> !puzzle.isGoal(ApplyMove(puzzle, state, moves[j]))
      ensures goalMove.None? ==> (optimal.None? <==> moves == [])
      ensures goalMove.None? && optimal.Some? ==>
        && optimal.value == MinTotal(state, costSoFar, moves)
        && (forall j :: 0 <= j < |moves| ==> optimal.value <= TotalCost(state, costSoFar, moves[j]))
        && candidates == Ties(state, costSoFar, moves, optimal.value)
        && candidates != []
      ensures goalMove.None? && optimal.None? ==> candidates == []
    {
      goalMove, optimal, candidates := None, None, [];
      var i := 0;
      while i < |moves|
        invariant Scanned(state, costSoFar, moves, i, optimal, candidates)
      {
        var m := moves[i];
        var next := ApplyMove(puzzle, state, m);
        if puzzle.isGoal(next) {
          goalMove := Some(m);
          return;
        }
        var totalCost := costSoFar + GetHeuristicValue(next);
        ghost var optimal0, candidates0 := optimal, candidates;
        if optimal.None? || totalCost < optimal.value {
          optimal := Some(totalCost);
          candidates := [Candidate(next, m)];
        } else if totalCost == optimal.value {
          candidates := candidates + [Candidate(next, m)];
        }
        ScanStep(state, costSoFar, moves, i, optimal0, candidates0, optimal, candidates);
        i := i + 1;
      }
      assert moves[..i] == moves;
      if optimal.Some? {
        MinTotalIsLowerBound(state, costSoFar, moves);
      }
    }

    /** The move the search explores from `state`: the first goal-reaching catalog move, or else a least-cost tie. */
    predicate IsGreedyStep(state: State, costSoFar: int, m: Move)
    {
      var moves := GenerateAllMoves(puzzle.sizeOf(state));
      (exists k :: 0 <= k < |moves| && moves[k] == m && puzzle.isGoal(ApplyMove(puzzle, state, m))
         && forall j :: 0 <= j < k ==> !puzzle.isGoal(ApplyMove(puzzle, state, moves[j])))
      || (moves != []
         && (forall j :: 0 <= j < |moves| ==> !puzzle.isGoal(ApplyMove(puzzle, state, moves[j])))
         && Candidate(ApplyMove(puzzle, state, m), m) in Ties(state, costSoFar, moves, MinTotal(state, costSoFar, moves)))
    }

    /** Where no catalog move reaches a goal, a least-cost tie is the greedy step. */
    lemma TieIsGreedy(state: State, costSoFar: int, c: Candidate)
      requires
        var moves := GenerateAllMoves(puzzle.sizeOf(state));
        && moves != []
        && (forall j :: 0 <= j < |moves| ==> !puzzle.isGoal(ApplyMove(puzzle, state, moves[j])))
        && c in Ties(state, costSoFar, moves, MinTotal(state, costSoFar, moves))
      ensures c.next == ApplyMove(puzzle, state, c.move)
      ensures IsGreedyStep(state, costSoFar, c.move)
    {
      var moves := GenerateAllMoves(puzzle.sizeOf(state));
      TiesMembers(state, costSoFar, moves, MinTotal(state, costSoFar, moves), c);
    }

    /** Every stored distance and the depth ceiling are non-negative, as for a table the builder returns. */
    predicate NonNegativeHeuristic()
    {
      depthCeiling >= 0 && forall s :: s in heuristicDb ==> heuristicDb[s] >= 0
    }

    /** No catalog move from `state` reaches a goal, and there is at least one move: the node descends. */
    predicate NoGoalMove(state: State)
    {
      var moves := GenerateAllMoves(puzzle.sizeOf(state));
      moves != [] && forall j :: 0 <= j < |moves| ==> !puzzle.isGoal(ApplyMove(puzzle, state, moves[j]))
    }

    /** How far the current path still is below the threshold; the recursion's measure. */
    function Headroom(): nat
      reads this
    {
      if currentThreshold.Some? && |solutionPath| < currentThreshold.value then currentThreshold.value - |solutionPath| else 0
    }

    /**
     * `_depth_limited_search`: a greedy descent that appends one move per
     * level to `solutionPath` and stops at a goal or when the path has
     * reached the current threshold.
     */
    method DepthLimitedSearch(state: State, costSoFar: int) returns (outcome: SearchOutcome)
      modifies this
      decreases Headroom(), 1
      ensures currentThreshold == old(currentThreshold)
      ensures |old(solutionPath)| <= |solutionPath| && solutionPath[..|old(solutionPath)|] == old(solutionPath)
      ensures outcome == Found ==> Solves(puzzle, state, solutionPath[|old(solutionPath)|..])
      ensures puzzle.isGoal(state) ==>
        outcome == Found && solutionPath == old(solutionPath) && nextThreshold == old(nextThreshold)
      ensures outcome == TypeError <==> !puzzle.isGoal(state) && currentThreshold.None?
      ensures outcome == TypeError ==> solutionPath == old(solutionPath) && nextThreshold == old(nextThreshold)
      ensures !puzzle.isGoal(state) && currentThreshold.Some? && |old(solutionPath)| >= currentThreshold.value ==>
        outcome == NotFound && solutionPath == old(solutionPath) && nextThreshold == old(nextThreshold)
      ensures currentThreshold.Some? && |old(solutionPath)| <= currentThreshold.value ==>
        |solutionPath| <= currentThreshold.value
      ensures !puzzle.isGoal(state) && |solutionPath| > |old(solutionPath)| ==>
        IsGreedyStep(state, costSoFar, solutionPath[|old(solutionPath)|])
      ensures old(nextThreshold).Some? ==> nextThreshold.Some? && nextThreshold.value <= old(nextThreshold).value
      ensures (puzzle.isGoal(state) || currentThreshold.None? || |old(solutionPath)| >= currentThreshold.value
               || !NoGoalMove(state)) ==> nextThreshold == old(nextThreshold)
      ensures !puzzle.isGoal(state) && currentThreshold.Some? && |old(solutionPath)| < currentThreshold.value
              && NoGoalMove(state) ==>
        nextThreshold.Some? && nextThreshold.value <= MinTotal(state, costSoFar, GenerateAllMoves(puzzle.sizeOf(state)))
      ensures !puzzle.isGoal(state) && currentThreshold.Some? && |old(solutionPath)| < currentThreshold.value
              && NoGoalMove(state) && NonNegativeHeuristic() && costSoFar >= 0 ==>
        nextThreshold == Some(Lowered(old(nextThreshold), MinTotal(state, costSoFar, GenerateAllMoves(puzzle.sizeOf(state)))))
      ensures NonNegativeHeuristic() && costSoFar >= 0 && old(nextThreshold).Some? && old(nextThreshold).value <= costSoFar ==>
        nextThreshold == old(nextThreshold)
    {
      if puzzle.isGoal(state) {
        return Found;
      }
      if currentThreshold.None? {
        return TypeError;
      }
      if |solutionPath| >= currentThreshold.value {
        return NotFound;
      }
      var allMoves := GenerateAllMoves(puzzle.sizeOf(state));
      var goalMove, optimal, candidates := ScanMoves(state, costSoFar, allMoves);
      if goalMove.Some? {
        ghost var before := solutionPath;
        solutionPath := solutionPath + [goalMove.value];
        assert solutionPath[|before|..] == [goalMove.value];
        assert Replay(puzzle, state, [goalMove.value]) == ApplyMove(puzzle, state, goalMove.value) by {
          assert [goalMove.value][1..] == [];
        }
        return Found;
      }
      if candidates != [] {
        forall c | c in candidates
          ensures c.next == ApplyMove(puzzle, state, c.move) && IsGreedyStep(state, costSoFar, c.move)
        {
          TieIsGreedy(state, costSoFar, c);
        }
        if NonNegativeHeuristic() && costSoFar >= 0 {
          MinTotalIsAttained(state, costSoFar, allMoves);
        }
        outcome := Descend(state, costSoFar, optimal.value, candidates);
        ghost var chosen := solutionPath[|old(solutionPath)|];
        assert Candidate(ApplyMove(puzzle, state, chosen), chosen) in candidates;
        return;
      }
      return NotFound;
    }

    /**
     * The candidate branch of `_depth_limited_search`: lower `nextThreshold`
     * to the least total cost, append one of the tied moves (the source picks
     * it at random) and search on from its successor. The recursive call
     * passes `costSoFar + optimal`, although `optimal` already includes
     * `costSoFar`.
     */
    method Descend(state: State, costSoFar: int, optimal: int, candidates: seq<Candidate>)
      returns (outcome: SearchOutcome)
      requires currentThreshold.Some? && |solutionPath| < currentThreshold.value
      requires candidates != []
      requires forall c :: c in candidates ==> c.next == ApplyMove(puzzle, state, c.move)
      modifies this
      decreases Headroom(), 0
      ensures currentThreshold == old(currentThreshold)
      ensures |old(solutionPath)| < |solutionPath| <= currentThreshold.value
      ensures solutionPath[..|old(solutionPath)|] == old(solutionPath)
      ensures outcome != TypeError
      ensures outcome == Found ==> Solves(puzzle, state, solutionPath[|old(solutionPath)|..])
      ensures Candidate(ApplyMove(puzzle, state, solutionPath[|old(solutionPath)|]), solutionPath[|old(solutionPath)|])
        in candidates
      ensures nextThreshold.Some? && nextThreshold.value <= optimal
      ensures old(nextThreshold).Some? ==> nextThreshold.value <= old(nextThreshold).value
      ensures NonNegativeHeuristic() && costSoFar >= 0 && optimal >= 0 ==>
        nextThreshold == Some(Lowered(old(nextThreshold), optimal))
    {
      if nextThreshold.None? || optimal < nextThreshold.value {
        nextThreshold := Some(optimal);
      }
      var k :| 0 <= k < |candidates|;
      var selected := candidates[k];
      ghost var before := solutionPath;
      solutionPath := solutionPath + [selected.move];
      ghost var extended := solutionPath;
      outcome := DepthLimitedSearch(selected.next, costSoFar + optimal);
      assert solutionPath[..|before|] == extended[..|before|] == before;
      assert solutionPath[|before|] == extended[|before|] == selected.move;
      if outcome == Found {
        SolvesStep(puzzle, state, solutionPath, |before|);
      }
    }

    /**
     * `solve_puzzle`: repeat the depth-limited search from `initialState`;
     * after each failed round, clear the path and take `nextThreshold` as the
     * new threshold. The source loops forever; here at most `fuel` rounds run.
     */
    method SolvePuzzle(initialState: State, fuel: nat) returns (r: SolveResult)
      modifies this
      ensures r.Solution? ==> r.moves == solutionPath
      ensures r.Solution? && old(solutionPath) == [] ==> Solves(puzzle, initialState, r.moves)
      ensures r.Solution? ==>
        Solves(puzzle, initialState, r.moves)
        || (|old(solutionPath)| <= |r.moves| && r.moves[..|old(solutionPath)|] == old(solutionPath)
            && Solves(puzzle, initialState, r.moves[|old(solutionPath)|..]))
      ensures puzzle.isGoal(initialState) && fuel > 0 ==> r == Solution(old(solutionPath))
      ensures r.Raised? ==> !puzzle.isGoal(initialState) && currentThreshold.None?
      ensures r.OutOfFuel? && fuel > 0 ==> solutionPath == [] && currentThreshold == nextThreshold
    {
      var rounds := 0;
      while rounds < fuel
        invariant 0 <= rounds <= fuel
        invariant rounds == 0 ==> solutionPath == old(solutionPath)
        invariant rounds > 0 ==> solutionPath == [] && currentThreshold == nextThreshold
        invariant rounds > 0 ==> !puzzle.isGoal(initialState)
        decreases fuel - rounds
      {
        ghost var before := solutionPath;
        var found := DepthLimitedSearch(initialState, 1);
        if found == Found {
          return Solution(solutionPath);
        }
        if found == TypeError {
          return Raised;
        }
        solutionPath := [];
        currentThreshold := nextThreshold;
        rounds := rounds + 1;
      }
      return OutOfFuel;
    }
  }
}
