/** The bit trick that decides how far a block's skip pointer jumps. */
module SkipHeight {

  function And(x: nat, y: nat): nat {
    if x == 0 || y == 0 then 0
    else (if x % 2 == 1 && y % 2 == 1 then 1 else 0) + 2 * And(x / 2, y / 2)
  }

  /** n & (n - 1) */
  function InvertLowestOne(n: nat): nat {
    if n == 0 then 0 else And(n, n - 1)
  }

  function GetSkipHeight(height: int): int {
    if height < 2 then 0
    else if height % 2 == 1 then InvertLowestOne(InvertLowestOne(height - 1)) + 1
    else InvertLowestOne(height)
  }

  lemma {:induction false} AndSelf(n: nat)
    ensures And(n, n) == n
  {
    if n > 0 { AndSelf(n / 2); }
  }

  /** Clearing the lowest set bit makes a positive number smaller. */
  lemma {:induction false} InvertDecreases(n: nat)
    ensures n > 0 ==> InvertLowestOne(n) < n
    ensures InvertLowestOne(n) <= n
  {
    if n > 1 {
      if n % 2 == 1 {
        AndSelf(n / 2);
      } else {
        InvertDecreases(n / 2);
      }
    }
  }

  /** Every block above the first jumps strictly back, and never below the first. */
  lemma SkipHeightBounds(height: int)
    requires height >= 1
    ensures 0 <= GetSkipHeight(height) < height
  {
    if height >= 2 {
      InvertDecreases(height);
      InvertDecreases(height - 1);
      InvertDecreases(InvertLowestOne(height - 1));
    }
  }
}
