/**
 * `KnowledgeBaseBuilder.construct_heuristic_database`: a FIFO breadth-first
 * expansion outward from the goal configuration that records, per reached
 * configuration, the least number of moves found.
 *
 * Every neighbour is enqueued whether or not it was seen before, so the queue
 * enumerates every move sequence of length up to `explorationDepth + 1`; a
 * recorded distance is only ever replaced by a strictly smaller one.
 */
module KnowledgeBaseBuilder {
  import opened Wrappers
  import opened PuzzleEngine
  import SearchAlgorithm

  /** A queue entry `(state, depth)`. */
  datatype Entry = Entry(state: State, depth: int)

  /** The configuration a move leads to, on the puzzle `p`. */
  function Successor(p: PuzzleModel): (State, Move) -> State
  {
    (s: State, m: Move) => ApplyMove(p, s, m)
  }

  /** `target` is reached from `source` by exactly `n` moves of `moveSet`, each taken by `next`. */
  ghost predicate Reaches(next: (State, Move) -> State, moveSet: seq<Move>, source: State, target: State, n: nat)
    decreases n
  {
    if n == 0 then source == target
    else exists i :: 0 <= i < |moveSet| && Reaches(next, moveSet, next(source, moveSet[i]), target, n - 1)
  }

  /** One more move at the end of a path of `n` moves gives a path of `n + 1` moves. */
  lemma {:induction false} ReachesStep(next: (State, Move) -> State, moveSet: seq<Move>, source: State, s: State, n: nat, i: int)
    requires Reaches(next, moveSet, source, s, n) && 0 <= i < |moveSet|
    ensures Reaches(next, moveSet, source, next(s, moveSet[i]), n + 1)
    decreases n
  {
    var succ := next(s, moveSet[i]);
    if n == 0 {
      assert source == s;
      assert Reaches(next, moveSet, next(source, moveSet[i]), succ, 0);
    } else {
      var i0 :| 0 <= i0 < |moveSet| && Reaches(next, moveSet, next(source, moveSet[i0]), s, n - 1);
      ReachesStep(next, moveSet, next(source, moveSet[i0]), s, n - 1, i);
      assert Reaches(next, moveSet, next(source, moveSet[i0]), succ, n);
    }
  }

  /** The table the builder starts from: the goal at distance 0, or a copy of the existing knowledge. */
  function InitialKnowledge(targetState: State, existingKnowledge: Option<map<State, int>>): map<State, int>
  {
    if existingKnowledge.None? then map[targetState := 0] else existingKnowledge.value
  }

  /**
   * What a table built from scratch holds: the goal at 0; every other key at a
   * distance between 1 and `explorationDepth + 1` at which it is reached; and
   * every configuration reached in that range of moves, at most at that distance.
   */
  ghost predicate IsDistanceTable(next: (State, Move) -> State, moveSet: seq<Move>, targetState: State, explorationDepth: int,
                                  db: map<State, int>)
  {
    && targetState in db && db[targetState] == 0
    && (forall s :: s in db ==>
          (s == targetState && db[s] == 0)
          || (1 <= db[s] <= explorationDepth + 1 && Reaches(next, moveSet, targetState, s, db[s])))
    && (forall s, k: nat :: 1 <= k <= explorationDepth + 1 && Reaches(next, moveSet, targetState, s, k) ==>
          s in db && db[s] <= k)
  }

  // ---------------------------------------------------------------------------
  // Termination: the work a queue still holds
  // ---------------------------------------------------------------------------

  /** The entries an entry at `depth` still causes to be dequeued, itself included. */
  function Weight(depth: int, explorationDepth: int, branching: nat): nat
    decreases if depth > explorationDepth then 0 else explorationDepth - depth + 1
  {
    if depth > explorationDepth then 1 else 1 + SearchAlgorithm.Times(branching, Weight(depth + 1, explorationDepth, branching))
  }

  function Work(queue: seq<Entry>, explorationDepth: int, branching: nat): nat
    decreases |queue|
  {
    if queue == [] then 0
    else Weight(queue[0].depth, explorationDepth, branching) + Work(queue[1..], explorationDepth, branching)
  }

  lemma {:induction false} WorkAppend(queue: seq<Entry>, e: Entry, explorationDepth: int, branching: nat)
    ensures Work(queue + [e], explorationDepth, branching)
         == Work(queue, explorationDepth, branching) + Weight(e.depth, explorationDepth, branching)
    decreases |queue|
  {
    if queue != [] {
      assert (queue + [e])[1..] == queue[1..] + [e];
      WorkAppend(queue[1..], e, explorationDepth, branching);
    } else {
      assert ([] + [e])[1..] == [];
    }
  }

  /** The entries the inner loop enqueues for `current` with its first `i` moves: the successors, in move order, one deeper. */
  function Children(next: (State, Move) -> State, moveSet: seq<Move>, current: Entry, i: nat): (c: seq<Entry>)
    requires i <= |moveSet|
    ensures |c| == i
  {
    if i == 0 then [] else Children(next, moveSet, current, i - 1) + [Entry(next(current.state, moveSet[i - 1]), current.depth + 1)]
  }

  /** Entry `j` of the children is the successor by move `j`, one deeper than `current`. */
  lemma {:induction false} ChildrenAt(next: (State, Move) -> State, moveSet: seq<Move>, current: Entry, i: nat, j: int)
    requires i <= |moveSet| && 0 <= j < i
    ensures |Children(next, moveSet, current, i)| == i
    ensures Children(next, moveSet, current, i)[j] == Entry(next(current.state, moveSet[j]), current.depth + 1)
  {
    if j < i - 1 {
      ChildrenAt(next, moveSet, current, i - 1, j);
    }
  }

  /** Expanding an entry at `d` adds, per move, the work of an entry at `d + 1`. */
  lemma {:induction false} WorkChildren(next: (State, Move) -> State, moveSet: seq<Move>, queue: seq<Entry>, current: Entry,
                                        i: nat, explorationDepth: int)
    requires i <= |moveSet|
    ensures Work(queue + Children(next, moveSet, current, i), explorationDepth, |moveSet|)
         == Work(queue, explorationDepth, |moveSet|)
            + SearchAlgorithm.Times(i, Weight(current.depth + 1, explorationDepth, |moveSet|))
  {
    if i == 0 {
      assert queue + [] == queue;
    } else {
      var e := Entry(next(current.state, moveSet[i - 1]), current.depth + 1);
      WorkChildren(next, moveSet, queue, current, i - 1, explorationDepth);
      assert queue + Children(next, moveSet, current, i) == (queue + Children(next, moveSet, current, i - 1)) + [e];
      WorkAppend(queue + Children(next, moveSet, current, i - 1), e, explorationDepth, |moveSet|);
    }
  }

  // ---------------------------------------------------------------------------
  // Completeness: every short path is either recorded or still pending
  // ---------------------------------------------------------------------------

  ghost predicate Covered(db: map<State, int>, s: State, k: int)
  {
    s in db && db[s] <= k
  }

  /** Some queue entry that will be expanded still reaches `s` so as to arrive at distance `k`. */
  ghost predicate Pending(next: (State, Move) -> State, moveSet: seq<Move>, explorationDepth: int, queue: seq<Entry>, s: State, k: nat)
  {
    exists j :: 0 <= j < |queue| && queue[j].depth <= explorationDepth && queue[j].depth < k
      && Reaches(next, moveSet, queue[j].state, s, k - queue[j].depth)
  }

  /** The entry being expanded, from move `i` on, still reaches `s` so as to arrive at distance `k`. */
  ghost predicate PendingFrom(next: (State, Move) -> State, moveSet: seq<Move>, e: Entry, i: int, s: State, k: nat)
  {
    e.depth < k
    && exists i' :: i <= i' < |moveSet| && 0 <= i' && Reaches(next, moveSet, next(e.state, moveSet[i']), s, k - e.depth - 1)
  }

  ghost predicate AllCovered(next: (State, Move) -> State, moveSet: seq<Move>, targetState: State, explorationDepth: int,
                             db: map<State, int>, queue: seq<Entry>)
  {
    forall s, k: nat {:trigger Covered(db, s, k)} :: 1 <= k <= explorationDepth + 1 && Reaches(next, moveSet, targetState, s, k) ==>
      Covered(db, s, k) || Pending(next, moveSet, explorationDepth, queue, s, k)
  }

  ghost predicate AllCoveredDuring(next: (State, Move) -> State, moveSet: seq<Move>, targetState: State, explorationDepth: int,
                                   db: map<State, int>, queue: seq<Entry>, e: Entry, i: int)
  {
    forall s, k: nat {:trigger Covered(db, s, k)} :: 1 <= k <= explorationDepth + 1 && Reaches(next, moveSet, targetState, s, k) ==>
      Covered(db, s, k) || Pending(next, moveSet, explorationDepth, queue, s, k) || PendingFrom(next, moveSet, e, i, s, k)
  }

  /** Every recorded distance is either untouched initial knowledge or a distance at which the key is reached. */
  ghost predicate Recorded(next: (State, Move) -> State, moveSet: seq<Move>, targetState: State, explorationDepth: int,
                           init: map<State, int>, db: map<State, int>)
  {
    && (forall s :: s in init ==> s in db && db[s] <= init[s])
    && (forall s :: s in db ==>
          (s in init && db[s] == init[s])
          || (1 <= db[s] <= explorationDepth + 1 && Reaches(next, moveSet, targetState, s, db[s])))
  }

  /** Every queue entry sits at a depth at which its configuration is reached. */
  ghost predicate QueueReached(next: (State, Move) -> State, moveSet: seq<Move>, targetState: State, queue: seq<Entry>)
  {
    forall j :: 0 <= j < |queue| ==> 0 <= queue[j].depth && Reaches(next, moveSet, targetState, queue[j].state, queue[j].depth)
  }

  lemma QueueAppend(next: (State, Move) -> State, moveSet: seq<Move>, targetState: State, queue: seq<Entry>, e: Entry)
    requires QueueReached(next, moveSet, targetState, queue)
    requires 0 <= e.depth && Reaches(next, moveSet, targetState, e.state, e.depth)
    ensures QueueReached(next, moveSet, targetState, queue + [e])
  {
    forall j | 0 <= j < |queue + [e]|
      ensures 0 <= (queue + [e])[j].depth && Reaches(next, moveSet, targetState, (queue + [e])[j].state, (queue + [e])[j].depth)
    {
      if j < |queue| {
        assert (queue + [e])[j] == queue[j];
      }
    }
  }

  /** With the queue drained, every short path has been recorded. */
  lemma DrainedCovered(next: (State, Move) -> State, moveSet: seq<Move>, targetState: State, explorationDepth: int,
                       db: map<State, int>)
    requires AllCovered(next, moveSet, targetState, explorationDepth, db, [])
    ensures forall s, k: nat :: 1 <= k <= explorationDepth + 1 && Reaches(next, moveSet, targetState, s, k) ==>
      s in db && db[s] <= k
  {
    forall s, k: nat | 1 <= k <= explorationDepth + 1 && Reaches(next, moveSet, targetState, s, k)
      ensures s in db && db[s] <= k
    {
      assert Covered(db, s, k) || Pending(next, moveSet, explorationDepth, [], s, k);
    }
  }

  /** Recording a distance at which a configuration is reached keeps the table `Recorded`, when it is an improvement. */
  lemma RecordImprovement(next: (State, Move) -> State, moveSet: seq<Move>, targetState: State, explorationDepth: int,
                          init: map<State, int>, db: map<State, int>, s: State, d: int)
    requires Recorded(next, moveSet, targetState, explorationDepth, init, db)
    requires 1 <= d <= explorationDepth + 1 && Reaches(next, moveSet, targetState, s, d)
    requires s !in db || db[s] > d
    ensures Recorded(next, moveSet, targetState, explorationDepth, init, db[s := d])
  {
  }

  /** Dequeuing an expandable entry hands its pending paths over to its moves. */
  lemma PopExpand(next: (State, Move) -> State, moveSet: seq<Move>, targetState: State, explorationDepth: int,
                  db: map<State, int>, queue: seq<Entry>)
    requires queue != [] && queue[0].depth <= explorationDepth
    requires AllCovered(next, moveSet, targetState, explorationDepth, db, queue)
    ensures AllCoveredDuring(next, moveSet, targetState, explorationDepth, db, queue[1..], queue[0], 0)
  {
    var e, rest := queue[0], queue[1..];
    forall s, k: nat | 1 <= k <= explorationDepth + 1 && Reaches(next, moveSet, targetState, s, k)
      ensures Covered(db, s, k) || Pending(next, moveSet, explorationDepth, rest, s, k)
              || PendingFrom(next, moveSet, e, 0, s, k)
    {
      if !Covered(db, s, k) {
        var j :| 0 <= j < |queue| && queue[j].depth <= explorationDepth && queue[j].depth < k
          && Reaches(next, moveSet, queue[j].state, s, k - queue[j].depth);
        if j == 0 {
          var i' :| 0 <= i' < |moveSet| && Reaches(next, moveSet, next(e.state, moveSet[i']), s, k - e.depth - 1);
        } else {
          assert rest[j - 1] == queue[j];
        }
      }
    }
  }

  /** Dequeuing an entry beyond the exploration depth loses nothing pending. */
  lemma PopSkip(next: (State, Move) -> State, moveSet: seq<Move>, targetState: State, explorationDepth: int,
                db: map<State, int>, queue: seq<Entry>)
    requires queue != [] && queue[0].depth > explorationDepth
    requires AllCovered(next, moveSet, targetState, explorationDepth, db, queue)
    ensures AllCovered(next, moveSet, targetState, explorationDepth, db, queue[1..])
  {
    var rest := queue[1..];
    forall s, k: nat | 1 <= k <= explorationDepth + 1 && Reaches(next, moveSet, targetState, s, k)
      ensures Covered(db, s, k) || Pending(next, moveSet, explorationDepth, rest, s, k)
    {
      if !Covered(db, s, k) {
        var j :| 0 <= j < |queue| && queue[j].depth <= explorationDepth && queue[j].depth < k
          && Reaches(next, moveSet, queue[j].state, s, k - queue[j].depth);
        assert j != 0;
        assert rest[j - 1] == queue[j];
      }
    }
  }

  /** Recording move `i` of the expanded entry and enqueuing its successor discharges what move `i` owed. */
  lemma ExpandStep(next: (State, Move) -> State, moveSet: seq<Move>, targetState: State, explorationDepth: int,
                   db: map<State, int>, queue: seq<Entry>, e: Entry, i: int,
                   db': map<State, int>, queue': seq<Entry>)
    requires 0 <= i < |moveSet| && 0 <= e.depth <= explorationDepth
    requires AllCoveredDuring(next, moveSet, targetState, explorationDepth, db, queue, e, i)
    requires queue' == queue + [Entry(next(e.state, moveSet[i]), e.depth + 1)]
    requires forall s :: s in db ==> s in db' && db'[s] <= db[s]
    requires next(e.state, moveSet[i]) in db' && db'[next(e.state, moveSet[i])] <= e.depth + 1
    ensures AllCoveredDuring(next, moveSet, targetState, explorationDepth, db', queue', e, i + 1)
  {
    var succ := next(e.state, moveSet[i]);
    forall s, k: nat | 1 <= k <= explorationDepth + 1 && Reaches(next, moveSet, targetState, s, k)
      ensures Covered(db', s, k) || Pending(next, moveSet, explorationDepth, queue', s, k)
              || PendingFrom(next, moveSet, e, i + 1, s, k)
    {
      if Covered(db, s, k) {
        assert Covered(db', s, k);
      } else if Pending(next, moveSet, explorationDepth, queue, s, k) {
        var j :| 0 <= j < |queue| && queue[j].depth <= explorationDepth && queue[j].depth < k
          && Reaches(next, moveSet, queue[j].state, s, k - queue[j].depth);
        assert queue'[j] == queue[j];
      } else {
        var i' :| i <= i' < |moveSet| && 0 <= i' && Reaches(next, moveSet, next(e.state, moveSet[i']), s, k - e.depth - 1);
        if i' == i {
          if k - e.depth - 1 == 0 {
            assert s == succ;
          } else {
            assert queue'[|queue|] == Entry(succ, e.depth + 1);
            assert Pending(next, moveSet, explorationDepth, queue', s, k);
          }
        }
      }
    }
  }

  /** What the inner loop keeps while it expands `current`, having applied its first `i` moves. */
  ghost predicate Expanding(next: (State, Move) -> State, moveSet: seq<Move>, targetState: State, explorationDepth: int,
                            init: map<State, int>, db: map<State, int>, queue: seq<Entry>, current: Entry, i: int)
  {
    && 0 <= current.depth <= explorationDepth
    && Reaches(next, moveSet, targetState, current.state, current.depth)
    && Recorded(next, moveSet, targetState, explorationDepth, init, db)
    && QueueReached(next, moveSet, targetState, queue)
    && AllCoveredDuring(next, moveSet, targetState, explorationDepth, db, queue, current, i)
  }

  /** Handling move `i` of `current` as the inner loop does keeps `Expanding`, one move further. */
  lemma ExpandMove(next: (State, Move) -> State, moveSet: seq<Move>, targetState: State, explorationDepth: int,
                   init: map<State, int>, db: map<State, int>, queue: seq<Entry>, current: Entry, i: int,
                   db': map<State, int>, queue': seq<Entry>)
    requires 0 <= i < |moveSet|
    requires Expanding(next, moveSet, targetState, explorationDepth, init, db, queue, current, i)
    requires queue' == queue + [Entry(next(current.state, moveSet[i]), current.depth + 1)]
    requires db' == if next(current.state, moveSet[i]) !in db || db[next(current.state, moveSet[i])] > current.depth + 1
                    then db[next(current.state, moveSet[i]) := current.depth + 1] else db
    ensures Expanding(next, moveSet, targetState, explorationDepth, init, db', queue', current, i + 1)
  {
    var newState, newDistance := next(current.state, moveSet[i]), current.depth + 1;
    ReachesStep(next, moveSet, targetState, current.state, current.depth, i);
    if newState !in db || db[newState] > newDistance {
      RecordImprovement(next, moveSet, targetState, explorationDepth, init, db, newState, newDistance);
    }
    QueueAppend(next, moveSet, targetState, queue, Entry(newState, newDistance));
    ExpandStep(next, moveSet, targetState, explorationDepth, db, queue, current, i, db', queue');
  }

  /** Once every move of `current` is handled, nothing is owed by it any more. */
  lemma DoneExpanding(next: (State, Move) -> State, moveSet: seq<Move>, targetState: State, explorationDepth: int,
                      db: map<State, int>, queue: seq<Entry>, current: Entry)
    requires AllCoveredDuring(next, moveSet, targetState, explorationDepth, db, queue, current, |moveSet|)
    ensures AllCovered(next, moveSet, targetState, explorationDepth, db, queue)
  {
  }

  /**
   * The inner loop over `moveSet` for the dequeued entry `current`: each
   * successor, as `next` computes it (a fresh puzzle set to `current.state`
   * and the move dispatched on its type tag), gets `current.depth + 1`
   * recorded when that improves on the table, and is enqueued in any case.
   */
  method ExpandEntry(next: (State, Move) -> State, moveSet: seq<Move>, targetState: State, explorationDepth: int,
                     ghost init: map<State, int>, db0: map<State, int>, queue0: seq<Entry>, current: Entry)
    returns (knowledgeDb: map<State, int>, explorationQueue: seq<Entry>)
    requires Expanding(next, moveSet, targetState, explorationDepth, init, db0, queue0, current, 0)
    ensures Expanding(next, moveSet, targetState, explorationDepth, init, knowledgeDb, explorationQueue, current, |moveSet|)
    ensures explorationQueue == queue0 + Children(next, moveSet, current, |moveSet|)
  {
    knowledgeDb, explorationQueue := db0, queue0;
    for i := 0 to |moveSet|
      invariant Expanding(next, moveSet, targetState, explorationDepth, init, knowledgeDb, explorationQueue, current, i)
      invariant explorationQueue == queue0 + Children(next, moveSet, current, i)
    {
      var newState := next(current.state, moveSet[i]);
      var newDistance := current.depth + 1;
      ghost var db, queue := knowledgeDb, explorationQueue;
      if newState !in knowledgeDb || knowledgeDb[newState] > newDistance {
        knowledgeDb := knowledgeDb[newState := newDistance];
      }
      explorationQueue := explorationQueue + [Entry(newState, newDistance)];
      ExpandMove(next, moveSet, targetState, explorationDepth, init, db, queue, current, i, knowledgeDb, explorationQueue);
      assert explorationQueue == queue0 + (Children(next, moveSet, current, i) + [Entry(newState, newDistance)]);
    }
  }

  /** The outer loop's invariant: what is recorded is sound, what is queued is reached, and nothing short is lost. */
  ghost predicate Explored(next: (State, Move) -> State, moveSet: seq<Move>, targetState: State, explorationDepth: int,
                           init: map<State, int>, db: map<State, int>, queue: seq<Entry>)
  {
    && Recorded(next, moveSet, targetState, explorationDepth, init, db)
    && QueueReached(next, moveSet, targetState, queue)
    && AllCovered(next, moveSet, targetState, explorationDepth, db, queue)
  }

  /** Dequeuing the head either skips it, with less work left, or starts expanding it, with its work split off. */
  lemma Dequeue(next: (State, Move) -> State, moveSet: seq<Move>, targetState: State, explorationDepth: int,
                init: map<State, int>, db: map<State, int>, queue: seq<Entry>)
    requires queue != []
    requires Explored(next, moveSet, targetState, explorationDepth, init, db, queue)
    ensures queue[0].depth > explorationDepth ==>
      && Explored(next, moveSet, targetState, explorationDepth, init, db, queue[1..])
      && Work(queue[1..], explorationDepth, |moveSet|) < Work(queue, explorationDepth, |moveSet|)
    ensures queue[0].depth <= explorationDepth ==>
      && Expanding(next, moveSet, targetState, explorationDepth, init, db, queue[1..], queue[0], 0)
      && Work(queue, explorationDepth, |moveSet|)
         == Work(queue[1..], explorationDepth, |moveSet|) + 1
            + SearchAlgorithm.Times(|moveSet|, Weight(queue[0].depth + 1, explorationDepth, |moveSet|))
  {
    assert QueueReached(next, moveSet, targetState, queue[1..]) by {
      forall j | 0 <= j < |queue[1..]| ensures queue[1..][j] == queue[j + 1] { }
    }
    if queue[0].depth > explorationDepth {
      PopSkip(next, moveSet, targetState, explorationDepth, db, queue);
    } else {
      PopExpand(next, moveSet, targetState, explorationDepth, db, queue);
    }
  }

  /** Once the inner loop is through, the outer invariant holds again, with the children's work added. */
  lemma Expanded(next: (State, Move) -> State, moveSet: seq<Move>, targetState: State, explorationDepth: int,
                 init: map<State, int>, db: map<State, int>, rest: seq<Entry>, queue: seq<Entry>, current: Entry)
    requires Expanding(next, moveSet, targetState, explorationDepth, init, db, queue, current, |moveSet|)
    requires queue == rest + Children(next, moveSet, current, |moveSet|)
    ensures Explored(next, moveSet, targetState, explorationDepth, init, db, queue)
    ensures Work(queue, explorationDepth, |moveSet|)
         == Work(rest, explorationDepth, |moveSet|)
            + SearchAlgorithm.Times(|moveSet|, Weight(current.depth + 1, explorationDepth, |moveSet|))
  {
    DoneExpanding(next, moveSet, targetState, explorationDepth, db, queue, current);
    WorkChildren(next, moveSet, rest, current, |moveSet|, explorationDepth);
  }

  /** With the queue drained, the table is sound and complete up to `explorationDepth + 1` moves. */
  lemma Drained(next: (State, Move) -> State, moveSet: seq<Move>, targetState: State, explorationDepth: int,
                existingKnowledge: Option<map<State, int>>, db: map<State, int>)
    requires Explored(next, moveSet, targetState, explorationDepth, InitialKnowledge(targetState, existingKnowledge), db, [])
    ensures existingKnowledge.None? ==> IsDistanceTable(next, moveSet, targetState, explorationDepth, db)
    ensures existingKnowledge.Some? ==>
      forall s :: s in existingKnowledge.value ==> s in db && db[s] <= existingKnowledge.value[s]
    ensures forall s :: s in db ==>
      (s in InitialKnowledge(targetState, existingKnowledge) && db[s] == InitialKnowledge(targetState, existingKnowledge)[s])
      || (1 <= db[s] <= explorationDepth + 1 && Reaches(next, moveSet, targetState, s, db[s]))
    ensures forall s, k: nat :: 1 <= k <= explorationDepth + 1 && Reaches(next, moveSet, targetState, s, k) ==>
      s in db && db[s] <= k
  {
    DrainedCovered(next, moveSet, targetState, explorationDepth, db);
    if existingKnowledge.None? {
      assert targetState in InitialKnowledge(targetState, existingKnowledge);
    }
  }

  /**
   * `construct_heuristic_database`: starting from the goal at distance 0 (or
   * from a copy of `existingKnowledge`, in which the goal is not forced to 0),
   * dequeue `(state, depth)` in FIFO order; skip entries deeper than
   * `explorationDepth`; otherwise, for every move, record `depth + 1` for the
   * successor when it is new or improves on the recorded distance, and enqueue
   * the successor at `depth + 1` in any case.
   */
  method ConstructHeuristicDatabase(p: PuzzleModel, targetState: State, moveSet: seq<Move>, explorationDepth: int,
                                    existingKnowledge: Option<map<State, int>>)
    returns (knowledgeDb: map<State, int>)
    ensures existingKnowledge.None? ==> IsDistanceTable(Successor(p), moveSet, targetState, explorationDepth, knowledgeDb)
    ensures existingKnowledge.Some? ==>
      forall s :: s in existingKnowledge.value ==> s in knowledgeDb && knowledgeDb[s] <= existingKnowledge.value[s]
    ensures forall s :: s in knowledgeDb ==>
      (s in InitialKnowledge(targetState, existingKnowledge)
       && knowledgeDb[s] == InitialKnowledge(targetState, existingKnowledge)[s])
      || (1 <= knowledgeDb[s] <= explorationDepth + 1 && Reaches(Successor(p), moveSet, targetState, s, knowledgeDb[s]))
    ensures forall s, k: nat :: 1 <= k <= explorationDepth + 1 && Reaches(Successor(p), moveSet, targetState, s, k) ==>
      s in knowledgeDb && knowledgeDb[s] <= k
  {
    var next := Successor(p);
    var init := InitialKnowledge(targetState, existingKnowledge);
    knowledgeDb := init;
    var explorationQueue := [Entry(targetState, 0)];
    while explorationQueue != []
      invariant Explored(next, moveSet, targetState, explorationDepth, init, knowledgeDb, explorationQueue)
      decreases Work(explorationQueue, explorationDepth, |moveSet|)
    {
      var current := explorationQueue[0];
      Dequeue(next, moveSet, targetState, explorationDepth, init, knowledgeDb, explorationQueue);
      explorationQueue := explorationQueue[1..];
      if current.depth > explorationDepth {
        continue;
      }
      ghost var rest := explorationQueue;
      knowledgeDb, explorationQueue :=
        ExpandEntry(next, moveSet, targetState, explorationDepth, init, knowledgeDb, explorationQueue, current);
      Expanded(next, moveSet, targetState, explorationDepth, init, knowledgeDb, rest, explorationQueue, current);
    }
    Drained(next, moveSet, targetState, explorationDepth, existingKnowledge, knowledgeDb);
  }

  /**
   * What the search engine reads from a table built without existing
   * knowledge: 0 at the goal; for another known state, the least number of
   * moves (at most `explorationDepth + 1`) that lead to it from the goal; the
   * depth ceiling for a state the table does not hold.
   */
  lemma HeuristicIsDistance(engine: SearchAlgorithm.AdaptiveSearchEngine, targetState: State, moveSet: seq<Move>,
                            explorationDepth: int, s: State)
    requires IsDistanceTable(Successor(engine.puzzle), moveSet, targetState, explorationDepth, engine.heuristicDb)
    ensures engine.GetHeuristicValue(targetState) == 0
    ensures s in engine.heuristicDb && s != targetState ==>
      var h := engine.GetHeuristicValue(s);
      && 1 <= h <= explorationDepth + 1
      && Reaches(Successor(engine.puzzle), moveSet, targetState, s, h)
      && forall k: nat :: 1 <= k < h ==> !Reaches(Successor(engine.puzzle), moveSet, targetState, s, k)
    ensures s !in engine.heuristicDb ==>
      engine.GetHeuristicValue(s) == engine.depthCeiling
      && forall k: nat :: 1 <= k <= explorationDepth + 1 ==> !Reaches(Successor(engine.puzzle), moveSet, targetState, s, k)
  {
  }
}
