/** Iterative-deepening alpha-beta search (src/alphabeta.rs).

    The position operations the search calls but which this model does not
    define (`generate_children`, `is_game_over`, `string_rep`) are fields of
    a `Game` value. The wall clock is a `Clock`: the `k`-th reading of the
    clock returns `elapsed(k)` nanoseconds since the start, and every method
    that reads it takes the number of readings so far and returns the new
    number. */
module AlphaBeta {
  import opened Wrappers
  import opened MoveGenerator
  import opened Evaluator

  const VeryHigh: int := 9999999999999
  const VeryLow: int := -VeryHigh

  /** The maximum number of deepening passes. */
  const MaxDepth: nat := 100000000

  datatype Game = Game(children: Position -> seq<Position>, gameOver: Position -> bool, key: Position -> string)

  datatype Clock = Clock(elapsed: nat -> nat, limitSeconds: nat)

  function LimitNanos(clock: Clock): nat {
    clock.limitSeconds * 1000000000
  }

  /** The time limit is never reached. */
  ghost predicate NoDeadline(clock: Clock) {
    forall k :: clock.elapsed(k) < LimitNanos(clock)
  }

  /** A position the evaluator accepts: the ring is empty and some piece is on the board. */
  predicate Evaluable(p: Position) {
    Bordered(p) && HasPieces(p.board)
  }

  /** The children of an evaluable position are evaluable. */
  ghost predicate Closed(g: Game) {
    forall p, c :: Evaluable(p) && c in g.children(p) ==> Evaluable(c)
  }

  predicate AllEvaluable(cs: seq<Position>) {
    forall c :: c in cs ==> Evaluable(c)
  }

  /** Distinct positions have distinct keys. */
  ghost predicate KeyInjective(g: Game) {
    forall p, q :: Key(g, p) == Key(g, q) ==> p == q
  }

  // ---------------------------------------------------------------------------
  // The reference: depth-limited minimax

  /** The value the search gives a leaf: the default evaluation of the board.
      The evaluator panics on a board without pieces; such a board is never
      evaluated here, and `Score` gives it 0 only to be total. */
  function Score(p: Position): int {
    if HasPieces(p.board) then Evaluation(DefaultWeights, p.board) else 0
  }

  /** A leaf valuation within the search's window. */
  ghost predicate LeafBounded(leaf: Position -> int) {
    forall p :: VeryLow <= leaf(p) <= VeryHigh
  }

  lemma ScoreBounded()
    ensures LeafBounded(Score)
  {
    forall p: Position
      ensures VeryLow <= Score(p) <= VeryHigh
    {
      if HasPieces(p.board) {
        EvaluationBound(p.board);
      }
    }
  }

  /** A leaf valuation the search can stand on: within the window, and the
      default evaluation on every position the evaluator accepts. The search
      methods are stated over any such valuation, so that their proofs never
      look inside the evaluator. */
  ghost predicate SearchLeaf(leaf: Position -> int) {
    LeafBounded(leaf) &&
    forall p {:trigger Evaluation(DefaultWeights, p.board)} ::
      Evaluable(p) ==> leaf(p) == Evaluation(DefaultWeights, p.board)
  }

  lemma ScoreIsSearchLeaf()
    ensures SearchLeaf(Score)
  {
    ScoreBounded();
  }

  /** The depth-limited minimax value of `p` with leaf valuation `leaf`: the
      leaf value at depth 0 or at the end of the game; otherwise the best
      child value for the side to move, or `VeryLow` (`VeryHigh`) for a
      maximiser (minimiser) without children. */
  function Minimax(g: Game, leaf: Position -> int, p: Position, depth: nat): (v: int)
    requires LeafBounded(leaf)
    ensures VeryLow <= v <= VeryHigh
    decreases depth, 1, 0
  {
    if depth == 0 || g.gameOver(p) then leaf(p)
    else if p.maxPlayer then BestMax(g, leaf, g.children(p), depth - 1, |g.children(p)|)
    else BestMin(g, leaf, g.children(p), depth - 1, |g.children(p)|)
  }

  /** The largest of `VeryLow` and the minimax values of `cs[..n]`. */
  function BestMax(g: Game, leaf: Position -> int, cs: seq<Position>, d: nat, n: nat): (v: int)
    requires LeafBounded(leaf) && n <= |cs|
    ensures VeryLow <= v <= VeryHigh
    decreases d + 1, 0, n
  {
    if n == 0 then VeryLow
    else
      var rest := BestMax(g, leaf, cs, d, n - 1);
      var here := Minimax(g, leaf, cs[n - 1], d);
      if here >= rest then here else rest
  }

  /** The smallest of `VeryHigh` and the minimax values of `cs[..n]`. */
  function BestMin(g: Game, leaf: Position -> int, cs: seq<Position>, d: nat, n: nat): (v: int)
    requires LeafBounded(leaf) && n <= |cs|
    ensures VeryLow <= v <= VeryHigh
    decreases d + 1, 0, n
  {
    if n == 0 then VeryHigh
    else
      var rest := BestMin(g, leaf, cs, d, n - 1);
      var here := Minimax(g, leaf, cs[n - 1], d);
      if here <= rest then here else rest
  }

  /** `BestMax` grows with `n` and bounds every child value it covers. */
  lemma {:induction false} BestMaxBounds(g: Game, leaf: Position -> int, cs: seq<Position>, d: nat, n: nat, m: nat)
    requires LeafBounded(leaf) && m <= n <= |cs|
    ensures BestMax(g, leaf, cs, d, m) <= BestMax(g, leaf, cs, d, n)
    ensures forall j :: 0 <= j < n ==> Minimax(g, leaf, cs[j], d) <= BestMax(g, leaf, cs, d, n)
    decreases n
  {
    if n > 0 {
      BestMaxBounds(g, leaf, cs, d, n - 1, if m == n then n - 1 else m);
    }
  }

  /** `BestMin` shrinks with `n` and bounds every child value it covers. */
  lemma {:induction false} BestMinBounds(g: Game, leaf: Position -> int, cs: seq<Position>, d: nat, n: nat, m: nat)
    requires LeafBounded(leaf) && m <= n <= |cs|
    ensures BestMin(g, leaf, cs, d, n) <= BestMin(g, leaf, cs, d, m)
    ensures forall j :: 0 <= j < n ==> BestMin(g, leaf, cs, d, n) <= Minimax(g, leaf, cs[j], d)
    decreases n
  {
    if n > 0 {
      BestMinBounds(g, leaf, cs, d, n - 1, if m == n then n - 1 else m);
    }
  }

  /** The fail-soft guarantee of a search with window `(alpha, beta)` that
      returned `v` for a position whose true value is `m`. */
  predicate FailSoft(v: int, m: int, alpha: int, beta: int) {
    (v <= alpha ==> m <= v) && (v >= beta ==> m >= v) && (alpha < v < beta ==> v == m)
  }

  /** With the widest window, a fail-soft result is the exact value. */
  lemma FullWindowIsExact(v: int, m: int)
    requires VeryLow <= v <= VeryHigh && VeryLow <= m <= VeryHigh
    requires FailSoft(v, m, VeryLow, VeryHigh)
    ensures v == m
  {
  }

  /** What a max node knows after searching its first `i` children with
      window `(alpha, beta)` without a cut-off: the running value `value`
      is below `beta`, bounds the minimax value of those children from
      above, and equals it once it rises above `alpha`. */
  ghost predicate MaxSoFar(g: Game, leaf: Position -> int, cs: seq<Position>, d: nat, i: nat,
                           value: int, alpha: int, beta: int)
    requires LeafBounded(leaf) && i <= |cs|
  {
    value < beta && BestMax(g, leaf, cs, d, i) <= value &&
    (value > alpha ==> value == BestMax(g, leaf, cs, d, i))
  }

  /** The min-node counterpart of `MaxSoFar`. */
  ghost predicate MinSoFar(g: Game, leaf: Position -> int, cs: seq<Position>, d: nat, i: nat,
                           value: int, alpha: int, beta: int)
    requires LeafBounded(leaf) && i <= |cs|
  {
    value > alpha && value <= BestMin(g, leaf, cs, d, i) &&
    (value < beta ==> value == BestMin(g, leaf, cs, d, i))
  }

  /** What a max node knows after its `i`-th child brought the running
      value to `v`: a cut-off value is fail-soft for the whole node, and
      otherwise `MaxSoFar` covers one more child. */
  ghost predicate MaxAfter(g: Game, leaf: Position -> int, cs: seq<Position>, d: nat, i: nat,
                           v: int, alpha: int, beta: int)
    requires LeafBounded(leaf) && i < |cs|
  {
    if v >= beta then FailSoft(v, BestMax(g, leaf, cs, d, |cs|), alpha, beta)
    else MaxSoFar(g, leaf, cs, d, i + 1, v, alpha, beta)
  }

  /** The min-node counterpart of `MaxAfter`. */
  ghost predicate MinAfter(g: Game, leaf: Position -> int, cs: seq<Position>, d: nat, i: nat,
                           v: int, alpha: int, beta: int)
    requires LeafBounded(leaf) && i < |cs|
  {
    if v <= alpha then FailSoft(v, BestMin(g, leaf, cs, d, |cs|), alpha, beta)
    else MinSoFar(g, leaf, cs, d, i + 1, v, alpha, beta)
  }

  /** One iteration of a max node: a fail-soft child result searched with
      window `(a, beta)` raises the running value to `v`, which either
      causes a cut-off that is fail-soft for the whole node, or extends
      `MaxSoFar` by one child. */
  lemma MaxStep(g: Game, leaf: Position -> int, cs: seq<Position>, d: nat, i: nat,
                value: int, childValue: int, v: int, alpha: int, a: int, beta: int)
    requires LeafBounded(leaf) && i < |cs| && alpha < beta
    requires MaxSoFar(g, leaf, cs, d, i, value, alpha, beta)
    requires a == alpha || (a == value && value > alpha)
    requires FailSoft(childValue, Minimax(g, leaf, cs[i], d), a, beta)
    requires v == if childValue >= value then childValue else value
    ensures MaxAfter(g, leaf, cs, d, i, v, alpha, beta)
  {
    BestMaxBounds(g, leaf, cs, d, |cs|, i + 1);
  }

  /** One iteration of a min node. */
  lemma MinStep(g: Game, leaf: Position -> int, cs: seq<Position>, d: nat, i: nat,
                value: int, childValue: int, v: int, alpha: int, b: int, beta: int)
    requires LeafBounded(leaf) && i < |cs| && alpha < beta
    requires MinSoFar(g, leaf, cs, d, i, value, alpha, beta)
    requires b == beta || (b == value && value < beta)
    requires FailSoft(childValue, Minimax(g, leaf, cs[i], d), alpha, b)
    requires v == if childValue <= value then childValue else value
    ensures MinAfter(g, leaf, cs, d, i, v, alpha, beta)
  {
    BestMinBounds(g, leaf, cs, d, |cs|, i + 1);
  }

  // ---------------------------------------------------------------------------
  // The search

  /** `alphabeta`. `t` counts the clock readings made so far; the clock is
      read only when the depth is positive and the game is not over. */
  method Alphabeta(g: Game, ghost leaf: Position -> int, clock: Clock, p: Position, depth: nat,
                   alpha: int, beta: int, t: nat)
    returns (value: int, t': nat)
    requires Closed(g) && SearchLeaf(leaf) && Evaluable(p)
    ensures VeryLow <= value <= VeryHigh
    ensures t <= t'
    ensures depth == 0 || g.gameOver(p) ==> value == leaf(p) && t' == t
    ensures depth > 0 && !g.gameOver(p) && clock.elapsed(t) > LimitNanos(clock) ==>
      value == leaf(p) && t' == t + 1
    ensures NoDeadline(clock) && VeryLow <= alpha < beta <= VeryHigh ==>
      FailSoft(value, Minimax(g, leaf, p, depth), alpha, beta)
    ensures NoDeadline(clock) && alpha == VeryLow && beta == VeryHigh ==> value == Minimax(g, leaf, p, depth)
    decreases depth, 2
  {
    if depth == 0 || g.gameOver(p) {
      value := Evaluate(DefaultWeights, p);
      return value, t;
    }
    var now := clock.elapsed(t);
    t' := t + 1;
    if now > LimitNanos(clock) {
      value := Evaluate(DefaultWeights, p);
      return;
    }
    if p.maxPlayer {
      value, t' := MaxNode(g, leaf, clock, p, depth, alpha, beta, t');
    } else {
      value, t' := MinNode(g, leaf, clock, p, depth, alpha, beta, t');
    }
    if NoDeadline(clock) && alpha == VeryLow && beta == VeryHigh {
      FullWindowIsExact(value, Minimax(g, leaf, p, depth));
    }
  }

  /** The maximising branch of `alphabeta`: the children are searched in
      order with window `(alpha, beta)`, `alpha` rising with the best value
      found, until a value reaches `beta`. */
  method MaxNode(g: Game, ghost leaf: Position -> int, clock: Clock, p: Position, depth: nat,
                 alpha: int, beta: int, t: nat)
    returns (value: int, t': nat)
    requires Closed(g) && SearchLeaf(leaf) && Evaluable(p) && depth > 0
    ensures VeryLow <= value <= VeryHigh
    ensures t <= t'
    ensures NoDeadline(clock) && VeryLow <= alpha < beta <= VeryHigh ==>
      FailSoft(value, BestMax(g, leaf, g.children(p), depth - 1, |g.children(p)|), alpha, beta)
    ensures |g.children(p)| == 0 ==> value == VeryLow
    decreases depth, 1
  {
    var cs := g.children(p);
    ghost var exact := NoDeadline(clock) && VeryLow <= alpha < beta <= VeryHigh;
    var a := alpha;
    value := VeryLow;
    t' := t;
    var i := 0;
    while i < |cs|
      invariant 0 <= i <= |cs|
      invariant VeryLow <= value <= VeryHigh
      invariant t <= t'
      invariant a == alpha || (a == value && value > alpha)
      invariant |cs| == 0 ==> value == VeryLow
      invariant exact ==> MaxSoFar(g, leaf, cs, depth - 1, i, value, alpha, beta)
    {
      var cut, childValue;
      childValue, value, a, t', cut := MaxChild(g, leaf, clock, p, i, depth, value, alpha, a, beta, t', exact);
      if cut {
        break;
      }
      i := i + 1;
    }
  }

  /** One pass of the max node's loop: child `i` is searched with window
      `(a, beta)`, the running value rises to its result if that is at least
      as large, and `cut` tells whether the value reached `beta`; if not,
      `a` rises to the value. */
  method MaxChild(g: Game, ghost leaf: Position -> int, clock: Clock, p: Position, i: nat, depth: nat,
                  value: int, alpha: int, a: int, beta: int, t: nat, ghost exact: bool)
    returns (childValue: int, value': int, a': int, t': nat, cut: bool)
    requires Closed(g) && Evaluable(p) && depth > 0 && i < |g.children(p)| && SearchLeaf(leaf)
    requires VeryLow <= value <= VeryHigh
    requires a == alpha || (a == value && value > alpha)
    requires exact ==> NoDeadline(clock) && VeryLow <= alpha < beta <= VeryHigh
    requires exact ==> MaxSoFar(g, leaf, g.children(p), depth - 1, i, value, alpha, beta)
    ensures VeryLow <= childValue <= VeryHigh && t <= t'
    ensures depth == 1 || g.gameOver(g.children(p)[i]) ==> childValue == leaf(g.children(p)[i])
    ensures NoDeadline(clock) && VeryLow <= a < beta <= VeryHigh ==>
      FailSoft(childValue, Minimax(g, leaf, g.children(p)[i], depth - 1), a, beta)
    ensures value' == if childValue >= value then childValue else value
    ensures cut <==> value' >= beta
    ensures !cut ==> a' == alpha || (a' == value' && value' > alpha)
    ensures exact ==> MaxAfter(g, leaf, g.children(p), depth - 1, i, value', alpha, beta)
    decreases depth, 0
  {
    var cs := g.children(p);
    assert exact ==> VeryLow <= a < beta <= VeryHigh;
    childValue, t' := Alphabeta(g, leaf, clock, cs[i], depth - 1, a, beta, t);
    value' := value;
    if childValue >= value' {
      value' := childValue;
    }
    if exact {
      MaxStep(g, leaf, cs, depth - 1, i, value, childValue, value', alpha, a, beta);
    }
    a' := a;
    cut := value' >= beta;
    if !cut && value' > a' {
      a' := value';
    }
  }

  /** The minimising branch of `alphabeta`: `beta` falls with the best value
      found, until a value reaches `alpha`. */
  method MinNode(g: Game, ghost leaf: Position -> int, clock: Clock, p: Position, depth: nat,
                 alpha: int, beta: int, t: nat)
    returns (value: int, t': nat)
    requires Closed(g) && SearchLeaf(leaf) && Evaluable(p) && depth > 0
    ensures VeryLow <= value <= VeryHigh
    ensures t <= t'
    ensures NoDeadline(clock) && VeryLow <= alpha < beta <= VeryHigh ==>
      FailSoft(value, BestMin(g, leaf, g.children(p), depth - 1, |g.children(p)|), alpha, beta)
    ensures |g.children(p)| == 0 ==> value == VeryHigh
    decreases depth, 1
  {
    var cs := g.children(p);
    ghost var exact := NoDeadline(clock) && VeryLow <= alpha < beta <= VeryHigh;
    var b := beta;
    value := VeryHigh;
    t' := t;
    var i := 0;
    while i < |cs|
      invariant 0 <= i <= |cs|
      invariant VeryLow <= value <= VeryHigh
      invariant t <= t'
      invariant b == beta || (b == value && value < beta)
      invariant |cs| == 0 ==> value == VeryHigh
      invariant exact ==> MinSoFar(g, leaf, cs, depth - 1, i, value, alpha, beta)
    {
      var cut, childValue;
      childValue, value, b, t', cut := MinChild(g, leaf, clock, p, i, depth, value, alpha, b, beta, t', exact);
      if cut {
        break;
      }
      i := i + 1;
    }
  }

  /** One pass of the min node's loop, the mirror image of `MaxChild`. */
  method MinChild(g: Game, ghost leaf: Position -> int, clock: Clock, p: Position, i: nat, depth: nat,
                  value: int, alpha: int, b: int, beta: int, t: nat, ghost exact: bool)
    returns (childValue: int, value': int, b': int, t': nat, cut: bool)
    requires Closed(g) && Evaluable(p) && depth > 0 && i < |g.children(p)| && SearchLeaf(leaf)
    requires VeryLow <= value <= VeryHigh
    requires b == beta || (b == value && value < beta)
    requires exact ==> NoDeadline(clock) && VeryLow <= alpha < beta <= VeryHigh
    requires exact ==> MinSoFar(g, leaf, g.children(p), depth - 1, i, value, alpha, beta)
    ensures VeryLow <= childValue <= VeryHigh && t <= t'
    ensures depth == 1 || g.gameOver(g.children(p)[i]) ==> childValue == leaf(g.children(p)[i])
    ensures NoDeadline(clock) && VeryLow <= alpha < b <= VeryHigh ==>
      FailSoft(childValue, Minimax(g, leaf, g.children(p)[i], depth - 1), alpha, b)
    ensures value' == if childValue <= value then childValue else value
    ensures cut <==> value' <= alpha
    ensures !cut ==> b' == beta || (b' == value' && value' < beta)
    ensures exact ==> MinAfter(g, leaf, g.children(p), depth - 1, i, value', alpha, beta)
    decreases depth, 0
  {
    var cs := g.children(p);
    assert exact ==> VeryLow <= alpha < b <= VeryHigh;
    childValue, t' := Alphabeta(g, leaf, clock, cs[i], depth - 1, alpha, b, t);
    value' := value;
    if childValue <= value' {
      value' := childValue;
    }
    if exact {
      MinStep(g, leaf, cs, depth - 1, i, value, childValue, value', alpha, b, beta);
    }
    b' := b;
    cut := value' <= alpha;
    if !cut && value' < b' {
      b' := value';
    }
  }

  // ---------------------------------------------------------------------------
  // The root of the search

  /** A child of the root together with the score the last pass gave it
      (the `score` field of a position). */
  datatype Child = Child(pos: Position, score: int)

  /** Every value in the table lies in the search's window. */
  ghost predicate MemoInRange(memo: map<string, int>) {
    forall k :: k in memo ==> VeryLow <= memo[k] <= VeryHigh
  }

  /** Every value in the table is the depth-`d` minimax value of every
      position with that key. */
  ghost predicate MemoSound(g: Game, leaf: Position -> int, memo: map<string, int>, d: nat) {
    LeafBounded(leaf) &&
    forall p :: Key(g, p) in memo ==> memo[Key(g, p)] == Minimax(g, leaf, p, d)
  }

  /** The key of a position (`string_rep`). */
  function Key(g: Game, p: Position): string {
    g.key(p)
  }

  /** `x` is at least as good as `y` for the side that is to move at the root. */
  predicate AtLeastAsGood(x: int, y: int, maxPlayer: bool) {
    if maxPlayer then x >= y else x <= y
  }

  /** The scoring of one child in `alphabeta_at_root`: the value stored
      under the child's key when there is one, and otherwise the value of a
      full-window search of depth `depthLimit`, which is then stored. */
  method ScoreChild(g: Game, ghost leaf: Position -> int, clock: Clock, child: Position, depthLimit: nat,
                    memo: map<string, int>, t: nat)
    returns (childValue: int, memo': map<string, int>, t': nat)
    requires Closed(g) && SearchLeaf(leaf) && Evaluable(child) && MemoInRange(memo)
    ensures MemoInRange(memo') && t <= t'
    ensures forall k :: k in memo' <==> k in memo || k == Key(g, child)
    ensures forall k :: k in memo ==> memo'[k] == memo[k]
    ensures childValue == memo'[Key(g, child)]
    ensures Key(g, child) in memo ==> memo' == memo && t' == t
    ensures NoDeadline(clock) && KeyInjective(g) && MemoSound(g, leaf, memo, depthLimit) ==>
      MemoSound(g, leaf, memo', depthLimit) && childValue == Minimax(g, leaf, child, depthLimit)
  {
    var key := Key(g, child);
    if key in memo {
      childValue := memo[key];
      return childValue, memo, t;
    }
    childValue, t' := Alphabeta(g, leaf, clock, child, depthLimit, VeryLow, VeryHigh, t);
    memo' := memo[key := childValue];
  }

  /** The root loop leaves the positions of the children alone and has not
      yet touched `cs[i..]`. */
  ghost predicate Rescored(cs: seq<Child>, orig: seq<Child>, i: nat) {
    |cs| == |orig| && i <= |cs| &&
    (forall j :: 0 <= j < |cs| ==> cs[j].pos == orig[j].pos) &&
    (forall j :: i <= j < |cs| ==> cs[j] == orig[j])
  }

  /** What the root loop knows about the table after scoring `cs[..i]`:
      earlier entries are kept, every scored child's key is present with
      its score, and when every key was already present nothing was
      searched. */
  ghost predicate RootTable(g: Game, cs: seq<Child>, memo: map<string, int>, memo': map<string, int>,
                            t: nat, t': nat, i: nat)
    requires i <= |cs|
  {
    t <= t' &&
    (forall k :: k in memo ==> k in memo' && memo'[k] == memo[k]) &&
    (forall j :: 0 <= j < i ==> Key(g, cs[j].pos) in memo' && cs[j].score == memo'[Key(g, cs[j].pos)]) &&
    ((forall j :: 0 <= j < i ==> Key(g, cs[j].pos) in memo) ==> memo' == memo && t' == t)
  }

  /** What the root loop knows about its choice after scoring `cs[..i]`:
      `chosen` is the last child whose score is at least as good as every
      other, and `toBeat` its score. */
  ghost predicate BestSoFar(cs: seq<Child>, i: nat, toBeat: int, chosen: int, maxPlayer: bool)
    requires i <= |cs|
  {
    VeryLow <= toBeat <= VeryHigh &&
    (i == 0 ==> chosen == -1 && toBeat == if maxPlayer then VeryLow else VeryHigh) &&
    (i > 0 ==>
      0 <= chosen < i && toBeat == cs[chosen].score &&
      (forall j :: 0 <= j < i ==> AtLeastAsGood(toBeat, cs[j].score, maxPlayer)) &&
      (forall j :: chosen < j < i ==> !AtLeastAsGood(cs[j].score, toBeat, maxPlayer)))
  }

  lemma RescoredStep(cs: seq<Child>, orig: seq<Child>, i: nat, v: int)
    requires Rescored(cs, orig, i) && i < |cs|
    ensures Rescored(cs[i := cs[i].(score := v)], orig, i + 1)
  {
  }

  /** Scoring child `i` extends `RootTable` by one child, given what
      `ScoreChild` promises about the table. */
  lemma RootTableStep(g: Game, cs: seq<Child>, memo: map<string, int>, m: map<string, int>, m': map<string, int>,
                      t: nat, u: nat, u': nat, i: nat, v: int)
    requires i < |cs| && RootTable(g, cs, memo, m, t, u, i)
    requires u <= u'
    requires forall k :: k in m' <==> k in m || k == Key(g, cs[i].pos)
    requires forall k :: k in m ==> m'[k] == m[k]
    requires v == m'[Key(g, cs[i].pos)]
    requires Key(g, cs[i].pos) in m ==> m' == m && u' == u
    ensures RootTable(g, cs[i := cs[i].(score := v)], memo, m', t, u', i + 1)
  {
    var cs' := cs[i := cs[i].(score := v)];
    assert forall j :: 0 <= j < i ==> cs'[j] == cs[j];
    if forall j :: 0 <= j < i + 1 ==> Key(g, cs'[j].pos) in memo {
      assert cs'[i].pos == cs[i].pos && Key(g, cs'[i].pos) in memo;
    }
  }

  /** Child `i` with score `v` replaces the choice exactly when it is at
      least as good, which keeps `BestSoFar`. */
  lemma BestSoFarStep(cs: seq<Child>, i: nat, toBeat: int, chosen: int, maxPlayer: bool, v: int)
    requires i < |cs| && BestSoFar(cs, i, toBeat, chosen, maxPlayer) && VeryLow <= v <= VeryHigh
    ensures var better := AtLeastAsGood(v, toBeat, maxPlayer);
      BestSoFar(cs[i := cs[i].(score := v)], i + 1, if better then v else toBeat,
                if better then i else chosen, maxPlayer)
  {
    var cs' := cs[i := cs[i].(score := v)];
    assert forall j :: 0 <= j < i ==> cs'[j] == cs[j];
  }

  /** One iteration of the loop over the children in `alphabeta_at_root`:
      child `i` is scored, its score is written back, and it becomes the
      choice when it is at least as good as the current one. */
  method VisitChild(g: Game, ghost leaf: Position -> int, clock: Clock, root: Position,
                    children: array<Child>, i: nat, depthLimit: nat,
                    ghost orig: seq<Child>, ghost memo: map<string, int>, m: map<string, int>,
                    ghost t: nat, u: nat, toBeat: int, chosen: int, ghost sound: bool)
    returns (m': map<string, int>, u': nat, toBeat': int, chosen': int)
    requires Closed(g) && SearchLeaf(leaf) && i < children.Length
    requires forall j :: 0 <= j < |orig| ==> Evaluable(orig[j].pos)
    requires Rescored(children[..], orig, i) && MemoInRange(m)
    requires RootTable(g, children[..], memo, m, t, u, i)
    requires BestSoFar(children[..], i, toBeat, chosen, root.maxPlayer)
    requires sound ==> NoDeadline(clock) && KeyInjective(g) && MemoSound(g, leaf, m, depthLimit)
    modifies children
    ensures Rescored(children[..], orig, i + 1) && MemoInRange(m')
    ensures RootTable(g, children[..], memo, m', t, u', i + 1)
    ensures BestSoFar(children[..], i + 1, toBeat', chosen', root.maxPlayer)
    ensures sound ==> MemoSound(g, leaf, m', depthLimit)
  {
    ghost var cs := children[..];
    var child := children[i];
    assert child.pos == orig[i].pos;
    var childValue;
    childValue, m', u' := ScoreChild(g, leaf, clock, child.pos, depthLimit, m, u);
    children[i] := child.(score := childValue);
    assert children[..] == cs[i := cs[i].(score := childValue)];
    RescoredStep(cs, orig, i, childValue);
    RootTableStep(g, cs, memo, m, m', t, u, u', i, childValue);
    BestSoFarStep(cs, i, toBeat, chosen, root.maxPlayer, childValue);
    if AtLeastAsGood(childValue, toBeat, root.maxPlayer) {
      toBeat', chosen' := childValue, i;
    } else {
      toBeat', chosen' := toBeat, chosen;
    }
  }

  /** `alphabeta_at_root`. Each child is scored from the table when its key
      is present and by a full-window search of depth `depthLimit`
      otherwise, the new value then being added to the table; the child that
      scores best for the side to move is chosen, the last one on ties, and
      the move is recovered from the board difference. `chosen` is the index
      of the chosen child. */
  method AlphabetaAtRoot(g: Game, ghost leaf: Position -> int, clock: Clock, root: Position,
                         children: array<Child>, depthLimit: nat,
                         memo: map<string, int>, t: nat)
    returns (best: Option<Move>, memo': map<string, int>, t': nat, chosen: int)
    requires Closed(g) && SearchLeaf(leaf) && MemoInRange(memo)
    requires forall i :: 0 <= i < children.Length ==> Evaluable(children[i].pos)
    modifies children
    ensures MemoInRange(memo')
    ensures Rescored(children[..], old(children[..]), children.Length)
    ensures RootTable(g, children[..], memo, memo', t, t', children.Length)
    ensures children.Length == 0 ==> best == None
    ensures children.Length > 0 ==>
      0 <= chosen < children.Length && best == BoardDiff(root, children[chosen].pos) &&
      BestSoFar(children[..], children.Length, children[chosen].score, chosen, root.maxPlayer)
    ensures NoDeadline(clock) && KeyInjective(g) && MemoSound(g, leaf, memo, depthLimit) ==>
      MemoSound(g, leaf, memo', depthLimit) &&
      forall c :: c in children[..] ==> c.score == Minimax(g, leaf, c.pos, depthLimit)
  {
    memo' := memo;
    t' := t;
    chosen := -1;
    if children.Length == 0 {
      return None, memo', t', chosen;
    }
    ghost var sound := NoDeadline(clock) && KeyInjective(g) && MemoSound(g, leaf, memo, depthLimit);
    ghost var orig := children[..];
    var toBeat := if root.maxPlayer then VeryLow else VeryHigh;
    for i := 0 to children.Length
      invariant Rescored(children[..], orig, i)
      invariant MemoInRange(memo')
      invariant RootTable(g, children[..], memo, memo', t, t', i)
      invariant BestSoFar(children[..], i, toBeat, chosen, root.maxPlayer)
      invariant sound ==> MemoSound(g, leaf, memo', depthLimit)
    {
      memo', t', toBeat, chosen :=
        VisitChild(g, leaf, clock, root, children, i, depthLimit, orig, memo, memo', t, t', toBeat, chosen, sound);
    }
    best := GetMoveFromBoardDiff(root, children[chosen].pos);
  }

  // ---------------------------------------------------------------------------
  // Move ordering and iterative deepening

  /** Child `c` may come before child `d` after sorting: scores descend for
      the maximising side and ascend for the minimising side. */
  predicate InOrder(c: Child, d: Child, maxPlayer: bool) {
    AtLeastAsGood(c.score, d.score, maxPlayer)
  }

  ghost predicate Ordered(cs: seq<Child>, maxPlayer: bool) {
    forall i, j :: 0 <= i < j < |cs| ==> InOrder(cs[i], cs[j], maxPlayer)
  }

  /** Exchanges `a[j - 1]` and `a[j]`. */
  method Swap(a: array<Child>, j: nat)
    requires 0 < j < a.Length
    modifies a
    ensures a[..] == old(a[..])[j - 1 := old(a[j])][j := old(a[j - 1])]
    ensures multiset(a[..]) == multiset(old(a[..]))
  {
    a[j - 1], a[j] := a[j], a[j - 1];
  }

  /** Moves `a[i]` towards the front past every child that is strictly worse
      for the side to move, so that `a[..i + 1]` is ordered. */
  method InsertAt(a: array<Child>, i: nat, maxPlayer: bool)
    requires i < a.Length && Ordered(a[..i], maxPlayer)
    modifies a
    ensures Ordered(a[..i + 1], maxPlayer)
    ensures a[i + 1..] == old(a[i + 1..])
    ensures multiset(a[..]) == multiset(old(a[..]))
  {
    var j := i;
    while j > 0 && !InOrder(a[j - 1], a[j], maxPlayer)
      invariant 0 <= j <= i
      invariant a[i + 1..] == old(a[i + 1..])
      invariant multiset(a[..]) == multiset(old(a[..]))
      invariant forall k, l :: 0 <= k < l <= i && k != j && l != j ==> InOrder(a[k], a[l], maxPlayer)
      invariant forall l :: j < l <= i ==> InOrder(a[j], a[l], maxPlayer)
    {
      Swap(a, j);
      j := j - 1;
    }
  }

  /** `children.sort_by(...)` with the comparison the driver uses: the
      children end up best-first for the side to move, as a permutation of
      what they were. Insertion sort never moves a child past one with an
      equal score, as Rust's stable sort does not. */
  method SortByScore(a: array<Child>, maxPlayer: bool)
    modifies a
    ensures Ordered(a[..], maxPlayer)
    ensures multiset(a[..]) == multiset(old(a[..]))
  {
    if a.Length <= 1 {
      return;
    }
    for i := 1 to a.Length
      invariant Ordered(a[..i], maxPlayer)
      invariant multiset(a[..]) == multiset(old(a[..]))
    {
      InsertAt(a, i, maxPlayer);
    }
  }

  function Positions(cs: seq<Child>): (ps: seq<Position>)
    ensures |ps| == |cs| && forall i :: 0 <= i < |cs| ==> ps[i] == cs[i].pos
  {
    if cs == [] then [] else [cs[0].pos] + Positions(cs[1..])
  }

  lemma {:induction false} PositionsAppend(xs: seq<Child>, ys: seq<Child>)
    ensures Positions(xs + ys) == Positions(xs) + Positions(ys)
  {
  }

  /** Permuting the children permutes their positions. */
  lemma {:induction false} PositionsPermuted(xs: seq<Child>, ys: seq<Child>)
    requires multiset(xs) == multiset(ys)
    ensures multiset(Positions(xs)) == multiset(Positions(ys))
    decreases |xs|
  {
    if xs == [] {
      assert |ys| == |multiset(ys)| == 0;
    } else {
      assert xs[0] in multiset(ys);
      var k :| 0 <= k < |ys| && ys[k] == xs[0];
      var rest := ys[..k] + ys[k + 1..];
      assert ys == ys[..k] + [ys[k]] + ys[k + 1..];
      assert xs == [xs[0]] + xs[1..];
      assert multiset(ys) == multiset(ys[..k]) + multiset{ys[k]} + multiset(ys[k + 1..]);
      assert multiset(xs) == multiset{xs[0]} + multiset(xs[1..]);
      assert multiset(rest) == multiset(ys[..k]) + multiset(ys[k + 1..]);
      assert multiset(xs[1..]) == multiset(xs) - multiset{xs[0]};
      assert multiset(rest) == multiset(ys) - multiset{ys[k]};
      PositionsPermuted(xs[1..], rest);
      PositionsAppend(ys[..k] + [ys[k]], ys[k + 1..]);
      PositionsAppend(ys[..k], [ys[k]]);
      PositionsAppend(ys[..k], ys[k + 1..]);
      PositionsAppend([xs[0]], xs[1..]);
    }
  }

  /** `top` is one of `cs` and at least as good as each of them for the
      side to move. */
  ghost predicate Leads(cs: seq<Child>, top: Child, maxPlayer: bool) {
    top in cs && forall c :: c in cs ==> AtLeastAsGood(top.score, c.score, maxPlayer)
  }

  /** Every child's key is in the table. */
  ghost predicate Keyed(g: Game, cs: seq<Child>, memo: map<string, int>) {
    forall c :: c in cs ==> Key(g, c.pos) in memo
  }

  /** Every child is in the table and carries its depth-1 minimax value. */
  ghost predicate ExactAtOne(g: Game, leaf: Position -> int, cs: seq<Child>, memo: map<string, int>) {
    Keyed(g, cs, memo) && LeafBounded(leaf) &&
    forall c :: c in cs ==> c.score == Minimax(g, leaf, c.pos, 1)
  }

  /** Reordering the children changes none of the facts above. */
  lemma PermutedKeeps(g: Game, leaf: Position -> int, xs: seq<Child>, ys: seq<Child>, top: Child,
                      maxPlayer: bool, memo: map<string, int>)
    requires multiset(xs) == multiset(ys)
    ensures multiset(Positions(xs)) == multiset(Positions(ys))
    ensures Leads(xs, top, maxPlayer) <==> Leads(ys, top, maxPlayer)
    ensures ExactAtOne(g, leaf, xs, memo) <==> ExactAtOne(g, leaf, ys, memo)
  {
    PositionsPermuted(xs, ys);
    forall c
      ensures c in xs <==> c in ys
    {
      assert c in xs <==> c in multiset(xs);
      assert c in ys <==> c in multiset(ys);
    }
  }

  lemma ChosenLeads(cs: seq<Child>, chosen: int, maxPlayer: bool)
    requires 0 <= chosen < |cs| && BestSoFar(cs, |cs|, cs[chosen].score, chosen, maxPlayer)
    ensures Leads(cs, cs[chosen], maxPlayer)
  {
    forall c | c in cs
      ensures AtLeastAsGood(cs[chosen].score, c.score, maxPlayer)
    {
      var j :| 0 <= j < |cs| && cs[j] == c;
    }
  }

  /** After a root pass the children carry their depth-1 values: on the
      first pass because the search was exact, on a later one because every
      key was already in a table that is exact for depth 1, so the pass only
      copied values out of it. */
  lemma ScoredAtOne(g: Game, leaf: Position -> int, before: seq<Child>, scored: seq<Child>, memo: map<string, int>,
                    memo': map<string, int>, t: nat, t': nat, depthLimit: nat)
    requires Rescored(scored, before, |scored|) && RootTable(g, scored, memo, memo', t, t', |scored|)
    requires MemoSound(g, leaf, memo, 1)
    requires depthLimit == 1 ==>
      MemoSound(g, leaf, memo', 1) && forall c :: c in scored ==> c.score == Minimax(g, leaf, c.pos, 1)
    requires depthLimit == 1 || Keyed(g, before, memo)
    ensures MemoSound(g, leaf, memo', 1) && ExactAtOne(g, leaf, scored, memo')
  {
    if depthLimit != 1 {
      forall j | 0 <= j < |scored|
        ensures Key(g, scored[j].pos) in memo
      {
        assert before[j] in before;
      }
      assert memo' == memo;
    }
    forall c | c in scored
      ensures Key(g, c.pos) in memo' && c.score == Minimax(g, leaf, c.pos, 1)
    {
      var j :| 0 <= j < |scored| && scored[j] == c;
    }
  }

  /** The scoring half of a deepening pass: `AlphabetaAtRoot`, with `top`
      the child it chose. When the table is sound for depth 1 and this is the
      first pass, or every child's key is already in the table, the children
      leave with their depth-1 minimax values. */
  method ScorePass(g: Game, ghost leaf: Position -> int, clock: Clock, root: Position,
                   children: array<Child>, depthLimit: nat, memo: map<string, int>, t: nat)
    returns (best: Option<Move>, memo': map<string, int>, t': nat, ghost top: Child)
    requires Closed(g) && SearchLeaf(leaf) && MemoInRange(memo)
    requires forall i :: 0 <= i < children.Length ==> Evaluable(children[i].pos)
    modifies children
    ensures MemoInRange(memo') && t <= t'
    ensures Positions(children[..]) == Positions(old(children[..]))
    ensures children.Length == 0 ==> best == None
    ensures children.Length > 0 ==>
      Leads(children[..], top, root.maxPlayer) && best == BoardDiff(root, top.pos)
    ensures NoDeadline(clock) && KeyInjective(g) && MemoSound(g, leaf, memo, 1) &&
            (depthLimit == 1 || Keyed(g, old(children[..]), memo)) ==>
      MemoSound(g, leaf, memo', 1) && ExactAtOne(g, leaf, children[..], memo')
  {
    ghost var before := children[..];
    var chosen;
    best, memo', t', chosen := AlphabetaAtRoot(g, leaf, clock, root, children, depthLimit, memo, t);
    ghost var scored := children[..];
    assert Positions(scored) == Positions(before);
    top := if children.Length > 0 then children[chosen] else Child(root, 0);
    if children.Length > 0 {
      ChosenLeads(scored, chosen, root.maxPlayer);
    }
    if NoDeadline(clock) && KeyInjective(g) && MemoSound(g, leaf, memo, 1) &&
       (depthLimit == 1 || Keyed(g, before, memo)) {
      ScoredAtOne(g, leaf, before, scored, memo, memo', t, t', depthLimit);
    }
  }

  /** One pass of the deepening loop: the children are scored at depth
      `depthLimit` and then sorted best-first. */
  method DeepeningPass(g: Game, ghost leaf: Position -> int, clock: Clock, root: Position,
                       children: array<Child>, depthLimit: nat, memo: map<string, int>, t: nat,
                       ghost cs: seq<Position>)
    returns (best: Option<Move>, memo': map<string, int>, t': nat, ghost top: Child)
    requires Closed(g) && SearchLeaf(leaf) && AllEvaluable(cs) && MemoInRange(memo)
    requires multiset(Positions(children[..])) == multiset(cs)
    modifies children
    ensures MemoInRange(memo') && t <= t'
    ensures multiset(Positions(children[..])) == multiset(cs)
    ensures Ordered(children[..], root.maxPlayer)
    ensures children.Length == 0 ==> best == None
    ensures children.Length > 0 ==>
      Leads(children[..], top, root.maxPlayer) && best == BoardDiff(root, top.pos)
    ensures NoDeadline(clock) && KeyInjective(g) && MemoSound(g, leaf, memo, 1) &&
            (depthLimit == 1 || Keyed(g, old(children[..]), memo)) ==>
      MemoSound(g, leaf, memo', 1) && ExactAtOne(g, leaf, children[..], memo')
  {
    forall i | 0 <= i < children.Length
      ensures Evaluable(children[i].pos)
    {
      assert Positions(children[..])[i] == children[i].pos;
      assert children[i].pos in multiset(cs);
    }
    best, memo', t', top := ScorePass(g, leaf, clock, root, children, depthLimit, memo, t);
    ghost var scored := children[..];
    SortByScore(children, root.maxPlayer);
    PermutedKeeps(g, leaf, children[..], scored, top, root.maxPlayer, memo');
  }

  /** `alphabeta_move_gen`: iterative deepening from depth 1, each pass
      scoring the root's children with `AlphabetaAtRoot` and then sorting
      them best-first, until `MaxDepth` passes are done or the clock reads at
      least the limit before a pass. `t0` is the number of clock readings made
      before the call. `ranked` is the children as the last pass left them,
      `top` the child the last pass chose and `passes` the number of passes. */
  method AlphabetaMoveGen(g: Game, clock: Clock, root: Position, t0: nat)
    returns (best: Option<Move>, ranked: seq<Child>, passes: nat, ghost top: Child)
    requires Closed(g) && AllEvaluable(g.children(root))
    ensures passes <= MaxDepth
    ensures passes == 0 || |g.children(root)| == 0 ==> best == None
    ensures clock.elapsed(t0) >= LimitNanos(clock) ==> passes == 0
    ensures NoDeadline(clock) ==> passes == MaxDepth
    ensures multiset(Positions(ranked)) == multiset(g.children(root))
    ensures passes > 0 ==> Ordered(ranked, root.maxPlayer)
    ensures passes > 0 && |g.children(root)| > 0 ==>
      Leads(ranked, top, root.maxPlayer) && best == BoardDiff(root, top.pos)
    ensures passes > 0 && NoDeadline(clock) && KeyInjective(g) ==>
      forall c :: c in ranked ==> c.score == Minimax(g, Score, c.pos, 1)
  {
    ScoreIsSearchLeaf();
    var cs := g.children(root);
    var children := new Child[|cs|](i requires 0 <= i < |cs| => Child(cs[i], 0));
    assert Positions(children[..]) == cs;
    assert AllEvaluable(cs);
    var depthLimit := 1;
    best := None;
    var memo: map<string, int> := map[];
    var t := t0;
    passes := 0;
    top := Child(root, 0);
    ghost var sound := NoDeadline(clock) && KeyInjective(g);
    while true
      invariant depthLimit == passes + 1 <= MaxDepth + 1
      invariant passes == 0 ==> t == t0 && best == None
      invariant passes > 0 ==> clock.elapsed(t0) < LimitNanos(clock)
      invariant MemoInRange(memo)
      invariant multiset(Positions(children[..])) == multiset(cs)
      invariant |cs| == 0 ==> best == None
      invariant passes > 0 ==> Ordered(children[..], root.maxPlayer)
      invariant passes > 0 && |cs| > 0 ==>
        Leads(children[..], top, root.maxPlayer) && best == BoardDiff(root, top.pos)
      invariant sound ==> MemoSound(g, Score, memo, 1)
      invariant passes > 0 && sound ==> ExactAtOne(g, Score, children[..], memo)
      decreases MaxDepth + 1 - depthLimit
    {
      if depthLimit > MaxDepth {
        break;
      }
      var now := clock.elapsed(t);
      t := t + 1;
      if now >= LimitNanos(clock) {
        break;
      }
      best, memo, t, top := DeepeningPass(g, Score, clock, root, children, depthLimit, memo, t, cs);
      depthLimit := depthLimit + 1;
      passes := passes + 1;
    }
    ranked := children[..];
  }
}
