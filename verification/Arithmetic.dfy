/** The few facts about products that the solver needs spelled out. */
module Arithmetic {
  lemma ScaleKeepsOrder(a: int, b: int, gap: int)
    requires a <= b && gap >= 0
    ensures a * gap <= b * gap
  {
  }

  lemma ScaleReflectsOrder(a: int, b: int, gap: int)
    requires gap >= 0 && a * gap < b * gap
    ensures a < b
  {
    if b <= a {
      ScaleKeepsOrder(b, a, gap);
    }
  }
}
