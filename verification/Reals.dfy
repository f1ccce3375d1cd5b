/** Products of reals, named so that their signs can be used one fact at a time. */
module Reals {

  function Times(x: real, y: real): real {
    x * y
  }

  lemma SignOfProduct(x: real, y: real)
    ensures (x >= 0.0 && y >= 0.0) || (x <= 0.0 && y <= 0.0) ==> Times(x, y) >= 0.0
    ensures (x > 0.0 && y > 0.0) || (x < 0.0 && y < 0.0) ==> Times(x, y) > 0.0
    ensures (x > 0.0 && y < 0.0) || (x < 0.0 && y > 0.0) ==> Times(x, y) < 0.0
    ensures x == 0.0 || y == 0.0 ==> Times(x, y) == 0.0
  {
    if x < 0.0 && y < 0.0 {
      assert (-x) * (-y) > 0.0;
      assert Times(x, y) == (-x) * (-y);
    } else if x < 0.0 && y > 0.0 {
      assert (-x) * y > 0.0;
      assert Times(x, y) == -((-x) * y);
    } else if x > 0.0 && y < 0.0 {
      assert x * (-y) > 0.0;
      assert Times(x, y) == -(x * (-y));
    }
  }
}
