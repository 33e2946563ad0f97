/** The integer skeleton of `calcPath`: the walk over 1..bound+1 that yields one
    point per step and turns at every n that `isPrime` accepts or that equals the
    bound. The floating-point heading is replaced by the number of moves made: the
    k-th move (counting from 0) goes along heading pi/2 + k * turnAngle, so a
    yielded point is determined by how many moves precede it. */
module PrimePath {
  import opened JsValues
  import opened Primality

  /** calcPath turns at n when isPrime(n) answers true (primes, and 1n, whose
      entry in the sieve is missing) or when n is the bound itself. */
  ghost predicate IsTurn(n: int, bound: int) {
    !Composite(n) || n == bound
  }

  /** The values of n in 1..upto at which the walk turns, in the order visited. */
  ghost function Turns(bound: int, upto: int): seq<int>
    decreases upto
  {
    if upto < 1 then [] else Turns(bound, upto - 1) + (if IsTurn(upto, bound) then [upto] else [])
  }

  /** For each of the first k yielded points, the number of moves made before it:
      the point yielded at step i+1 follows the turns made at 1..i. */
  ghost function MovesBeforePoints(bound: int, k: int): seq<nat> {
    seq(if k < 0 then 0 else k, i => |Turns(bound, i)|)
  }

  /** The value prevprime holds after the given turns: the last of them, or its initial 0. */
  function PrevPrime(turns: seq<int>): int {
    if turns == [] then 0 else turns[|turns| - 1]
  }

  /** The length of each move: the distance from the previous turn, or from 0 for the first. */
  function Steps(turns: seq<int>): (s: seq<int>)
  {
    seq(|turns|, k requires 0 <= k < |turns| => turns[k] - (if k == 0 then 0 else turns[k - 1]))
  }

  function Sum(s: seq<int>): int {
    if s == [] then 0 else Sum(s[..|s| - 1]) + s[|s| - 1]
  }

  lemma StepsSnoc(turns: seq<int>, n: int)
    ensures Steps(turns + [n]) == Steps(turns) + [n - PrevPrime(turns)]
  {
    var t := turns + [n];
    assert forall k :: 0 <= k < |turns| ==> t[k] == turns[k];
  }

  /** The local state of calcPath once steps 1..k have run: the points yielded
      so far (each as the number of moves made before it), the turns and move
      lengths so far, and prevprime. */
  datatype WalkState = WalkState(points: seq<nat>, turns: seq<int>, steps: seq<int>, prevprime: int)

  /** Step k yields the current point, then turns when IsTurn(k, bound), moving
      k - prevprime and setting prevprime to k. */
  ghost function WalkTo(bound: int, k: int): WalkState
    decreases k
  {
    if k < 1 then WalkState([], [], [], 0)
    else
      var w := WalkTo(bound, k - 1);
      var points := w.points + [|w.turns|];
      if IsTurn(k, bound) then WalkState(points, w.turns + [k], w.steps + [k - w.prevprime], k)
      else WalkState(points, w.turns, w.steps, w.prevprime)
  }

  /** After steps 1..k the walk has yielded k points, turned exactly at Turns(bound, k),
      moved by Steps of those turns, and holds the last turn in prevprime. */
  lemma {:induction false} WalkToMatchesTurns(bound: int, k: int)
    ensures WalkTo(bound, k).points == MovesBeforePoints(bound, k)
    ensures WalkTo(bound, k).turns == Turns(bound, k)
    ensures WalkTo(bound, k).steps == Steps(Turns(bound, k))
    ensures WalkTo(bound, k).prevprime == PrevPrime(Turns(bound, k))
    decreases k
  {
    if k >= 1 {
      WalkToMatchesTurns(bound, k - 1);
      var t := Turns(bound, k - 1);
      if IsTurn(k, bound) {
        assert Turns(bound, k) == t + [k];
        StepsSnoc(t, k);
      } else {
        assert Turns(bound, k) == t;
      }
    }
  }

  /** The walk turns at n (1 <= n <= upto) exactly when isPrime(n) holds or n == bound. */
  lemma {:induction false} TurnsExactly(bound: int, upto: int, n: int)
    ensures n in Turns(bound, upto) <==> 1 <= n <= upto && IsTurn(n, bound)
    decreases upto
  {
    if upto >= 1 {
      TurnsExactly(bound, upto - 1, n);
    }
  }

  /** The turns, which are the successive values of prevprime, strictly increase
      and lie in 1..upto. */
  lemma {:induction false} TurnsIncreasing(bound: int, upto: int)
    ensures forall i, j :: 0 <= i < j < |Turns(bound, upto)| ==> Turns(bound, upto)[i] < Turns(bound, upto)[j]
    ensures forall i :: 0 <= i < |Turns(bound, upto)| ==> 1 <= Turns(bound, upto)[i] <= upto
    decreases upto
  {
    if upto >= 1 {
      TurnsIncreasing(bound, upto - 1);
    }
  }

  /** Every move has length at least 1. */
  lemma StepsPositive(bound: int, upto: int)
    ensures forall k :: 0 <= k < |Turns(bound, upto)| ==> Steps(Turns(bound, upto))[k] >= 1
  {
    TurnsIncreasing(bound, upto);
  }

  /** The move lengths telescope: together they cover the distance to the last turn. */
  lemma {:induction false} StepsSumToLastTurn(turns: seq<int>)
    requires turns != []
    ensures Sum(Steps(turns)) == turns[|turns| - 1]
    decreases |turns|
  {
    var init := turns[..|turns| - 1];
    assert Steps(turns)[..|turns| - 1] == Steps(init);
    if init != [] {
      StepsSumToLastTurn(init);
    }
  }

  /** Because isPrime(1n) answers true, every walk that takes a step turns first at 1. */
  lemma {:induction false} FirstTurnAtOne(bound: int, upto: int)
    requires upto >= 1
    ensures |Turns(bound, upto)| >= 1 && Turns(bound, upto)[0] == 1
    decreases upto
  {
    if upto > 1 {
      FirstTurnAtOne(bound, upto - 1);
    } else {
      assert !Composite(1);
    }
  }

  /** The turn test of step n: isPrime(n) || n == bound. */
  method TurnAt(sieve: IncrementalSieve, bound: int, n: int) returns (turn: bool)
    requires sieve.Valid() && n >= 1
    modifies sieve, sieve.isqrt
    ensures sieve.Valid() && sieve.hi == Max(old(sieve.hi), n)
    ensures old(sieve.isqrt.n1) <= sieve.isqrt.n1 && old(sieve.isqrt.n2) <= sieve.isqrt.n2
    ensures old(sieve.hi) < n ==> n <= sieve.isqrt.n2
    ensures turn == IsTurn(n, bound)
  {
    var isPrime := sieve.Query(BigInt(n));
    turn := isPrime.value || n == bound;
  }

  /** calcPath({bound}): for each n in 1..bound+1, yield the current point, then
      ask isPrime(n) and turn when it holds or n == bound. points[i] is the number
      of moves made before the (i+1)-th point is yielded; turns holds the successive
      values of prevprime and steps the move lengths n - prevprime. */
  method CalcPath(sieve: IncrementalSieve, bound: int) returns (points: seq<nat>, turns: seq<int>, steps: seq<int>)
    requires sieve.Valid()
    modifies sieve, sieve.isqrt
    ensures sieve.Valid()
    ensures sieve.hi == Max(old(sieve.hi), bound + 1)
    ensures old(sieve.isqrt.n1) <= sieve.isqrt.n1 && old(sieve.isqrt.n2) <= sieve.isqrt.n2
    ensures |points| == if bound >= 0 then bound + 1 else 0
    ensures points == MovesBeforePoints(bound, bound + 1)
    ensures turns == Turns(bound, bound + 1)
    ensures steps == Steps(turns)
  {
    points, turns, steps := [], [], [];
    var prevprime := 0;
    var n := 1;
    while n <= bound + 1
      invariant 1 <= n && (if bound >= 0 then n <= bound + 2 else n == 1)
      invariant WalkState(points, turns, steps, prevprime) == WalkTo(bound, n - 1)
      invariant sieve.Valid() && sieve.hi == Max(old(sieve.hi), n - 1)
      invariant old(sieve.isqrt.n1) <= sieve.isqrt.n1 && old(sieve.isqrt.n2) <= sieve.isqrt.n2
    {
      points := points + [|turns|];
      var turn := TurnAt(sieve, bound, n);
      if turn {
        steps := steps + [n - prevprime];
        turns := turns + [n];
        prevprime := n;
      }
      n := n + 1;
    }
    WalkToMatchesTurns(bound, n - 1);
  }
}
