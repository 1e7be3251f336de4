/**
 * The integer square root and power of kernel/src/stdlib.rs.
 */
module IntegerMath {

  const U32: nat := 0x1_0000_0000

  function Square(k: nat): nat {
    k * k
  }

  ghost predicate IsSquare(n: nat) {
    exists k: nat :: Square(k) == n
  }

  /** s is the square root of x rounded down. */
  predicate IsRoot(x: nat, s: nat) {
    Square(s) <= x < Square(s + 1)
  }

  ghost function RootOf(x: nat): (s: nat)
    ensures IsRoot(x, s)
  {
    if x == 0 then 0
    else
      var r := RootOf(x - 1);
      if Square(r + 1) <= x then r + 1 else r
  }

  lemma SquareMonotone(a: nat, b: nat)
    ensures a <= b ==> Square(a) <= Square(b)
    ensures a < b ==> Square(a) < Square(b)
  {
    if a <= b {
      assert b * b - a * a == (b - a) * (b + a);
    }
  }

  /** The guess that follows g in sqrt_int. */
  function NextGuess(x: nat, g: nat): nat
    requires g > 0
  {
    (g + x / g) / 2
  }

  lemma MulMonotone(a: nat, b: int, c: int)
    requires b <= c
    ensures a * b <= a * c
  {
    assert a * c - a * b == a * (c - b);
  }

  lemma QuotientBelow(x: nat, g: nat, k: nat)
    requires g > 0 && x < g * k
    ensures x / g < k
  {
    if x / g >= k {
      MulMonotone(g, k, x / g);
    }
  }

  lemma QuotientAtLeast(x: nat, g: nat, k: nat)
    requires g > 0 && g * k <= x
    ensures x / g >= k
  {
    if x / g < k {
      MulMonotone(g, x / g + 1, k);
    }
  }

  lemma ProductAtMostSquare(g: int, s: int)
    ensures g * (2 * s - g) <= s * s
  {
    var d := s - g;
    assert d * d >= 0;
    assert s * s - g * (2 * s - g) == d * d;
  }

  /** No guess falls below the root. */
  lemma NextAtLeastRoot(x: nat, g: nat, s: nat)
    requires g > 0 && IsRoot(x, s)
    ensures NextGuess(x, g) >= s
  {
    ProductAtMostSquare(g, s);
    if 2 * s - g >= 0 {
      QuotientAtLeast(x, g, 2 * s - g);
    }
  }

  /** Above the root a guess strictly improves. */
  lemma NextBelow(x: nat, g: nat, s: nat)
    requires IsRoot(x, s) && g > s
    ensures NextGuess(x, g) < g
  {
    SquareMonotone(s + 1, g);
    QuotientBelow(x, g, g);
  }

  /** At the root the guess stays, unless x + 1 is the next square: then it goes up by one. */
  lemma NextAtRoot(x: nat, s: nat)
    requires IsRoot(x, s) && s > 0
    ensures NextGuess(x, s) == if x + 1 == Square(s + 1) then s + 1 else s
  {
    assert Square(s + 1) == s * s + 2 * s + 1;
    assert s * (s + 2) == s * s + 2 * s;
    assert s * (s + 3) == s * s + 3 * s;
    QuotientAtLeast(x, s, s);
    QuotientBelow(x, s, s + 3);
    if x + 1 == Square(s + 1) {
      QuotientAtLeast(x, s, s + 2);
    } else {
      QuotientBelow(x, s, s + 2);
    }
  }

  /** One above the root, with x + 1 a square, the guess comes back down. */
  lemma NextBack(x: nat, s: nat)
    requires s > 0 && x + 1 == Square(s + 1)
    ensures NextGuess(x, s + 1) == s
  {
    var g := s + 1;
    assert g * s == g * g - g;
    QuotientBelow(x, g, g);
    QuotientAtLeast(x, g, s);
  }

  lemma FirstGuess(x: nat, s: nat)
    requires x >= 2 && IsRoot(x, s)
    ensures x / 2 >= s >= 1
  {
    SquareMonotone(s + 1, 1);
    if s >= 2 {
      MulMonotone(s, 2, s);
    }
  }

  /** The guess after n rounds of the loop of sqrt_int, for x of at least two. */
  ghost function Guess(x: nat, n: nat): (g: nat)
    requires x >= 2
    ensures g >= RootOf(x) >= 1
  {
    FirstGuess(x, RootOf(x));
    if n == 0 then x / 2
    else
      var h := Guess(x, n - 1);
      NextAtLeastRoot(x, h, RootOf(x));
      NextGuess(x, h)
  }

  /** The loop stops: two guesses in a row are equal. */
  ghost predicate Stops(x: nat)
    requires x >= 2
  {
    exists n: nat :: Guess(x, n + 1) == Guess(x, n)
  }

  lemma {:induction false} ReachesRoot(x: nat, n: nat) returns (m: nat)
    requires x >= 2
    ensures Guess(x, m) == RootOf(x)
    decreases Guess(x, n)
  {
    var g := Guess(x, n);
    if g == RootOf(x) {
      m := n;
    } else {
      NextBelow(x, g, RootOf(x));
      m := ReachesRoot(x, n + 1);
    }
  }

  lemma SquareAboveRoot(x: nat, s: nat)
    requires IsRoot(x, s)
    ensures IsSquare(x + 1) <==> x + 1 == Square(s + 1)
  {
    if IsSquare(x + 1) {
      var k: nat :| Square(k) == x + 1;
      SquareMonotone(k, s);
      SquareMonotone(s + 2, k);
      SquareMonotone(s + 1, s + 2);
    }
  }

  /** Whatever the loop stops at is the root. */
  lemma StopsAtRoot(x: nat, n: nat)
    requires x >= 2 && Guess(x, n + 1) == Guess(x, n)
    ensures IsRoot(x, Guess(x, n)) && !IsSquare(x + 1)
  {
    var s := RootOf(x);
    var g := Guess(x, n);
    if g > s {
      NextBelow(x, g, s);
    }
    NextAtRoot(x, s);
    SquareAboveRoot(x, s);
  }

  /** sqrt_int terminates exactly when x + 1 is not a perfect square. */
  lemma StopsUnlessNextIsSquare(x: nat)
    requires x >= 2
    ensures Stops(x) <==> !IsSquare(x + 1)
  {
    if Stops(x) {
      var n: nat :| Guess(x, n + 1) == Guess(x, n);
      StopsAtRoot(x, n);
    }
    if !IsSquare(x + 1) {
      var s := RootOf(x);
      var m := ReachesRoot(x, 0);
      NextAtRoot(x, s);
      SquareAboveRoot(x, s);
      assert Guess(x, m + 1) == Guess(x, m);
    }
  }

  /** When x + 1 is a square the guesses end up going back and forth. */
  lemma AlternatesForever(x: nat, m: nat)
    requires x >= 2 && IsSquare(x + 1) && Guess(x, m) == RootOf(x)
    ensures Guess(x, m + 1) == RootOf(x) + 1 && Guess(x, m + 2) == RootOf(x)
  {
    var s := RootOf(x);
    NextAtRoot(x, s);
    SquareAboveRoot(x, s);
    NextBack(x, s);
  }

  // ---------------------------------------------------------------- the loop of sqrt_int

  /** At the head of the loop, after the return, or stopped by a division by zero. */
  datatype Loop = Head(guess: nat, last: nat) | Returned(root: nat) | DividedByZero

  function Begin(x: nat): Loop {
    if x == 0 then Returned(0) else Head(x / 2, x)
  }

  function Round(x: nat, l: Loop): Loop {
    match l
    case Head(guess, last) =>
      if guess == last then Returned(guess)
      else if guess == 0 then DividedByZero
      else Head(NextGuess(x, guess), guess)
    case _ => l
  }

  function Rounds(x: nat, n: nat): Loop {
    if n == 0 then Begin(x) else Round(x, Rounds(x, n - 1))
  }

  ghost predicate Returns(x: nat) {
    exists n: nat :: Rounds(x, n).Returned?
  }

  ghost predicate Panics(x: nat) {
    exists n: nat :: Rounds(x, n).DividedByZero?
  }

  /** From two on the loop is at the guesses in turn until two of them are equal. */
  lemma {:induction false} RoundsAreGuesses(x: nat, n: nat)
    requires x >= 2
    ensures match Rounds(x, n)
            case Head(guess, last) =>
              guess == Guess(x, n) && last == (if n == 0 then x else Guess(x, n - 1))
            case Returned(r) =>
              exists m: nat :: Guess(x, m + 1) == Guess(x, m) == r
            case DividedByZero => false
  {
    if n != 0 {
      RoundsAreGuesses(x, n - 1);
      if n >= 2 && Rounds(x, n - 1).Head? && Guess(x, n - 2 + 1) == Guess(x, n - 2) {
        assert Rounds(x, n) == Returned(Guess(x, n - 2));
      }
    }
  }

  lemma {:induction false} HeadUntil(x: nat, n: nat)
    requires x >= 2 && forall m: nat :: m + 1 <= n ==> Guess(x, m + 1) != Guess(x, m)
    ensures Rounds(x, n + 1).Head?
  {
    RoundsAreGuesses(x, n);
    if n != 0 {
      HeadUntil(x, n - 1);
      assert Guess(x, n - 1 + 1) != Guess(x, n - 1);
    }
  }

  /** Whatever is returned is the exact root. */
  lemma ReturnedIsRoot(x: nat, n: nat)
    requires Rounds(x, n).Returned?
    ensures IsRoot(x, Rounds(x, n).root)
  {
    if x >= 2 {
      RoundsAreGuesses(x, n);
      var m: nat :| Guess(x, m + 1) == Guess(x, m) == Rounds(x, n).root;
      StopsAtRoot(x, m);
    } else {
      SmallRounds(x, n);
    }
  }

  lemma {:induction false} SmallRounds(x: nat, n: nat)
    requires x < 2
    ensures x == 0 ==> Rounds(x, n) == Returned(0)
    ensures x == 1 ==> Rounds(x, n) == if n == 0 then Head(0, 1) else DividedByZero
  {
    if n != 0 {
      SmallRounds(x, n - 1);
    }
  }

  /** sqrt_int divides by zero for one, and for nothing else. */
  lemma PanicsForOne(x: nat)
    ensures Panics(x) <==> x == 1
  {
    if x == 1 {
      SmallRounds(x, 1);
      assert Rounds(x, 1).DividedByZero?;
    }
    forall n: nat | x != 1
      ensures !Rounds(x, n).DividedByZero?
    {
      if x == 0 {
        SmallRounds(x, n);
      } else {
        RoundsAreGuesses(x, n);
      }
    }
  }

  /** sqrt_int returns exactly for zero and for those above one whose successor is no square. */
  lemma ReturnsExactly(x: nat)
    ensures Returns(x) <==> x == 0 || (x >= 2 && !IsSquare(x + 1))
  {
    if x < 2 {
      assert Rounds(0, 0).Returned?;
      forall n: nat
        ensures x == 1 ==> !Rounds(x, n).Returned?
      {
        SmallRounds(x, n);
      }
    } else {
      StopsUnlessNextIsSquare(x);
      forall n: nat | Rounds(x, n).Returned?
        ensures Stops(x)
      {
        RoundsAreGuesses(x, n);
      }
      if Stops(x) {
        var n := FirstStop(x);
        HeadUntil(x, n);
        RoundsAreGuesses(x, n + 1);
        assert Rounds(x, n + 2).Returned?;
      }
    }
  }

  lemma FirstStop(x: nat) returns (n: nat)
    requires x >= 2 && Stops(x)
    ensures Guess(x, n + 1) == Guess(x, n)
    ensures forall m: nat :: m + 1 <= n ==> Guess(x, m + 1) != Guess(x, m)
  {
    n := 0;
    ghost var stop: nat :| Guess(x, stop + 1) == Guess(x, stop);
    while Guess(x, n + 1) != Guess(x, n)
      invariant n <= stop
      invariant forall m: nat :: m + 1 <= n ==> Guess(x, m + 1) != Guess(x, m)
      decreases stop - n
    {
      n := n + 1;
    }
  }

  /** No guess leaves 32 bits, nor does the sum in any round. */
  lemma {:induction false} RoundsFit(x: nat, n: nat)
    requires 2 <= x < U32
    ensures Guess(x, n) <= x / 2 + 1
    ensures Guess(x, n) + x / Guess(x, n) < U32
  {
    var s := RootOf(x);
    FirstGuess(x, s);
    if n != 0 {
      var h := Guess(x, n - 1);
      RoundsFit(x, n - 1);
      if h > s {
        NextBelow(x, h, s);
      } else {
        NextAtRoot(x, s);
      }
    }
    SumFits(x, Guess(x, n), s);
  }

  /** sqrt_int on the inputs it terminates for: the exact root, and no sum leaves 32 bits. */
  method SqrtInt(x: nat) returns (guess: nat)
    requires x < U32
    requires x == 0 || (x >= 2 && !IsSquare(x + 1))
    ensures IsRoot(x, guess)
  {
    if x == 0 {
      return 0;
    }
    ghost var s := RootOf(x);
    FirstGuess(x, s);
    SquareAboveRoot(x, s);
    NextAtRoot(x, s);
    guess := x / 2;
    var last := x;
    while guess != last
      invariant s <= guess <= x / 2
      invariant last == x || last >= guess
      invariant guess == last ==> guess == s
      decreases guess, if guess != last then 1 else 0
    {
      last := guess;
      SumFits(x, guess, s);
      assert guess + x / guess < U32;
      NextAtLeastRoot(x, guess, s);
      if guess > s {
        NextBelow(x, guess, s);
      }
      guess := (guess + x / guess) / 2;
    }
  }

  lemma SumFits(x: nat, g: nat, s: nat)
    requires 2 <= x < U32 && IsRoot(x, s) && 1 <= s <= g <= x / 2 + 1
    ensures g + x / g < U32
  {
    assert Square(s + 1) == s * s + 2 * s + 1;
    assert s * (s + 3) == s * s + 3 * s;
    MulMonotone(s + 3, s, g);
    assert (s + 3) * s == s * (s + 3) && (s + 3) * g == g * (s + 3);
    QuotientBelow(x, g, s + 3);
    SquareMonotone(65536, s);
    assert Square(65536) == U32;
  }

  // ---------------------------------------------------------------- powers

  function Pow(b: int, e: nat): int {
    if e == 0 then 1 else b * Pow(b, e - 1)
  }

  lemma {:induction false} PowOfSquare(b: int, e: nat)
    ensures Pow(b * b, e) == Pow(b, 2 * e)
  {
    if e != 0 {
      PowOfSquare(b, e - 1);
      assert Pow(b, 2 * e) == b * (b * Pow(b, 2 * e - 2));
      assert b * (b * Pow(b, 2 * e - 2)) == b * b * Pow(b, 2 * e - 2);
    }
  }

  /** pow_int over unbounded integers: exponentiation by squaring. */
  method PowInt(base: int, exp: nat) returns (result: int)
    ensures result == Pow(base, exp)
  {
    result := 1;
    var b, e := base, exp;
    while e > 0
      invariant result * Pow(b, e) == Pow(base, exp)
    {
      PowStep(result, b, e);
      if e % 2 != 0 {
        result := result * b;
      }
      b := b * b;
      e := e / 2;
    }
  }

  lemma PowStep(r: int, b: int, e: nat)
    requires e > 0
    ensures (if e % 2 != 0 then r * b else r) * Pow(b * b, e / 2) == r * Pow(b, e)
  {
    PowOfSquare(b, e / 2);
    if e % 2 != 0 {
      assert e == 2 * (e / 2) + 1;
      assert r * b * Pow(b, 2 * (e / 2)) == r * (b * Pow(b, 2 * (e / 2)));
    } else {
      assert e == 2 * (e / 2);
    }
  }
}
