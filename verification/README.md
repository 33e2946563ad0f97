# prime-spirals, the arithmetic core

prime-spirals draws a walk that starts at the origin with heading pi/2. For
n = 1, 2, ..., bound + 1 it first yields the current point. It then turns
when `isPrime(n)` holds (n prime, or n = 1, see below) or n is the bound: it moves `n - prevprime` along the current
heading, sets `prevprime` to n and adds the turn angle to the heading. The
position changes only at turns, so the points yielded between two turns
repeat. The move made at step bound + 1 is never yielded: the last point
follows the turns at 1..bound. This project models the integer machinery
behind that walk, in `main.js`:

- `isqrt` (`int_sqrt.dfy`, class `IntSqrt.MemoSqrt`) is a memoised floor square root. Its
  closure state is a table from n to floor(sqrt(n)), the largest square `n2`
  entered so far and its root `n1`. A query past `n2` adds squares one by one.
  Each round enters the next square and fills the row below it.
- `isPrime` (`sieve.dfy`, class `Primality.IncrementalSieve`) is an incremental Sieve of
  Eratosthenes. Its closure state is the set `nonprimes` and the bound `hi` up
  to which that set is complete. A query past `hi` marks, for every p up to
  `isqrt(n)`, the multiples of p from `max(hi / p * p, 2p)` to n, then raises `hi`.
- `calcPath` (`prime_path.dfy`, method `PrimePath.CalcPath`) is the generator loop of the walk.
  The heading of the walk is floating point, so the model replaces it by the
  number of moves made so far. The k-th move (counting from 0) goes along
  heading pi/2 + k * turnAngle, so a yielded point is determined by the number
  of moves before it. The method returns three sequences:
  - for each yielded point, the number of moves made before it;
  - the successive values of `prevprime`, i.e. the turns;
  - the move lengths `n - prevprime`.

JavaScript values are modelled by the datatype `JsValues.JsValue` (the
arguments checked by `typeof` at main.js:10 and main.js:32), which has three cases:
- a BigInt;
- a Number;
- anything else.

A thrown `Error` (main.js:11 and main.js:33) is the `Err` case of the datatype
`JsValues.Result`, carrying the message the source throws. Both `isqrt` and
`isPrime` check the type and sign of their argument before they touch any
state. The model keeps the BigInt 1n and the Number 1 apart, as the language's
`Set` does. The sieve is seeded with the Number 1 and only ever adds BigInts
of at least 4, so `isPrime(1n)` answers true. 1 is evidently meant to count as
non-prime, but the model follows the code: the invariant and the walk's turn
at 1 (`PrimePath.FirstTurnAtOne`) say so.

`hi / p * p` is BigInt division, which truncates toward zero. Here both
operands are positive, so it agrees with Dafny's Euclidean division.

## Model

| member | source | states |
|---|---|---|
| IntSqrt.FloorSqrt | main.js:5 | the value the table holds for x: the r with r*r <= x < (r+1)*(r+1) |
| IntSqrt.FloorSqrtUnique | main.js:5 | that bound determines r, so any r satisfying it is floor(sqrt(x)) |
| IntSqrt.FloorSqrtRow | main.js:14-17 | every i in the row [k*k, (k+1)*(k+1)) has floor(sqrt(i)) == k, and the row is not empty |
| IntSqrt.FloorSqrtOfSquare | main.js:14-15 | the square (k+1)*(k+1) entered at the top of the row has root k+1 |
| IntSqrt.FloorSqrtMonotone | main.js:36 | floor(sqrt) is monotone, so p <= isqrt(c) for c <= n implies p <= isqrt(n) |
| IntSqrt.RowAdded | main.js:13-19 | one round of the extension loop turns a table exact on [0, k*k] into one exact on [0, (k+1)*(k+1)], keeping every old entry |
| IntSqrt.RowEntered | main.js:15-17 | that round, once the values of floor(sqrt) on the new row and at the new square are known |
| IntSqrt.MemoSqrt.constructor | main.js:4-7 | the initial closure state {0: 0}, n1 = n2 = 0 satisfies the memo invariant |
| IntSqrt.MemoSqrt.FillRow | main.js:16-17 | the inner loop maps exactly the keys of [lo, hi) to n1 and leaves every other key and n1, n2 alone |
| IntSqrt.MemoSqrt.AddSquare | main.js:14-19 | one round keeps the invariant (n2 == n1*n1, table exact on [0, n2] and nothing else), raises n1 by one and n2 strictly, and changes no old entry |
| IntSqrt.MemoSqrt.Query | main.js:9-22 | a non-BigInt or negative argument throws 'Expected nonnegative BigInt' with the state untouched; otherwise the answer r satisfies r*r <= x < (r+1)*(r+1), x <= n2 afterwards, n1 and n2 never decrease, old entries never change, nothing changes when x <= n2 already, and the table overshoots x by at most one square |
| Primality.Max | main.js:44-46 | max(a, b) is an upper bound of both arguments and one of them |
| Primality.LeastFactor | main.js:36-38 | the least factor of c >= 2: it divides c and nothing in [2, f) does |
| Primality.LeastFactorFrom | main.js:36-38 | the least factor of c that is at least d, given none below d |
| Primality.LeastFactorOfComposite | main.js:36 | a composite's least factor p is below it, p*2 <= c and p <= floor(sqrt(c)), so the sieve's p-range reaches it |
| Primality.RoundDownBelow | main.js:37 | the scan start hi / p * p is a multiple of p between 0 and hi |
| Primality.MarkedBy | main.js:36-38 | c is one of the values the round for p of an extension from h to n adds: p in [2, isqrt(n)], c a multiple of p in [max(h / p * p, 2p), n] |
| Primality.SieveContents | main.js:28-38 | what `nonprimes` holds when the sieve is complete up to h: the Number 1 it is seeded with and the BigInt of every composite in [2, h] |
| Primality.MarkedIsComposite | main.js:36-38 | every number an extension marks is composite: the sieve never marks a prime, nor 1 |
| Primality.ExtensionMarksComposite | main.js:35-39 | every composite c in (hi, n] is marked by its least factor: the extension skips no composite |
| Primality.SieveContentsMembers | main.js:28-29 | the sieve invariant as membership: the set holds the Number 1, only composites up to hi, and every composite in [2, hi] |
| Primality.IncrementalSieve.constructor | main.js:28-29 | the initial state {1}, hi = 1 satisfies the sieve invariant |
| Primality.IncrementalSieve.MarkMultiples | main.js:37-38 | the inner loop adds exactly the multiples of p in [max(hi / p * p, 2p), n], adds only composites, and covers every composite in (hi, n] whose least factor is p |
| Primality.IncrementalSieve.Query | main.js:31-42 | a non-BigInt or n <= 0 throws 'Expected positive BigInt' with the state untouched; otherwise the invariant is kept, the answer is true exactly for non-composites (primality for n >= 2, true for 1n), hi becomes max(hi, n), an extension leaves the shared isqrt table covering n, the set only grows, and a query with n <= hi changes nothing, so repeating it is idempotent |
| PrimePath.IsTurn | main.js:59 | the turn test `isPrime(n) || n === bound`, with isPrime(n) meaning n is not composite (true for primes and for 1n) |
| PrimePath.Turns | main.js:55-62 | the values of n in 1..upto at which the walk turns, in order: the successive values of `prevprime` |
| PrimePath.PrevPrime | main.js:55-62 | the value of `prevprime` after the given turns: 0 initially, then the last turn |
| PrimePath.Steps | main.js:60-62 | the move lengths `n - prevprime`: each turn minus the turn before it, the first minus 0 |
| PrimePath.WalkTo | main.js:56-64 | the loop's state after steps 1..k: the points yielded, the turns, the move lengths and `prevprime`, one step at a time |
| PrimePath.MovesBeforePoints | main.js:56-62 | one entry per yielded point, k after k steps: the point yielded at step i+1 follows as many moves as there are turns at 1..i |
| PrimePath.StepsSnoc | main.js:60-62 | a new turn at n appends one move of length n - prevprime to the move lengths |
| PrimePath.WalkToMatchesTurns | main.js:55-65 | the step-by-step state of the loop after k steps is the k yielded points, the turns in 1..k, their move lengths and the last turn as prevprime |
| PrimePath.TurnsExactly | main.js:59 | the walk turns at n in 1..upto exactly when isPrime(n) holds or n == bound |
| PrimePath.TurnsIncreasing | main.js:56-62 | prevprime strictly increases, and every turn lies in 1..upto |
| PrimePath.StepsPositive | main.js:60-62 | every move length n - prevprime is at least 1 |
| PrimePath.StepsSumToLastTurn | main.js:60-62 | the move lengths telescope to the last turn |
| PrimePath.FirstTurnAtOne | main.js:59 | because isPrime(1n) is true, the first turn is at 1 |
| PrimePath.TurnAt | main.js:59 | the turn test keeps the sieve invariant, raises hi to max(hi, n), never lowers isqrt's n1 and n2 and leaves them covering n after an extension, and answers IsTurn(n, bound) |
| PrimePath.CalcPath | main.js:50-65 | the walk yields bound+1 points for bound >= 0 (none otherwise), turns exactly at Turns(bound, bound+1), moves by their differences, leaves the sieve valid with hi = max(hi, bound+1), and never lowers isqrt's n1 and n2 |

## Left out

- The floating-point geometry of `calcPath` is not modelled: `x`, `y`, `theta`, `Math.cos`, `Math.sin` and the wrap `mod` (main.js:51-53, 60-61, 63, 67-69). The heading is replaced by the number of moves made, and `turnAngle` is not a parameter.
- PrimePath.CalcPath: it runs the generator to completion and returns what it yields as a sequence. A consumer that stops early, and the sieve state such a consumer leaves behind, are not modelled.
- `render` and the pixel transform `T` (main.js:72-86) are canvas drawing and are not modelled.
- `main` (main.js:89-121) is DOM lookup, event handling and parsing of input text, and is not modelled.
- The `isqrt` table's keys are the string forms of BigInts in the source. Here they are integers.
- A JavaScript value other than a BigInt or a Number (a string, undefined, an object) is one case, `OtherValue`, because both functions reject all of them alike.
- The model makes no claim about running time.
