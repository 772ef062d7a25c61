/** Numbers in decimal digits, as the JSON printer and the import keys write them. */
module Decimals {
  import opened Bytes

  predicate IsDigit(b: int) {
    48 <= b <= 57
  }

  function Digits(n: nat): (b: Bytes)
    ensures b != [] && forall i | 0 <= i < |b| :: IsDigit(b[i])
  {
    if n < 10 then [48 + n] else Digits(n / 10) + [48 + n % 10]
  }

  /** Read digits as far as they go. */
  function TakeDigits(b: Bytes, acc: nat): (r: (nat, Bytes))
    ensures |r.1| <= |b|
  {
    if b != [] && IsDigit(b[0]) then TakeDigits(b[1..], acc * 10 + (b[0] - 48)) else (acc, b)
  }

  lemma {:induction false} DigitsRead(n: nat, tail: Bytes)
    ensures TakeDigits(Digits(n) + tail, 0) == TakeDigits(tail, n)
  {
    if n < 10 {
      assert (Digits(n) + tail)[1..] == tail;
    } else {
      var last := [48 + n % 10];
      DigitsRead(n / 10, last + tail);
      assert Digits(n) + tail == Digits(n / 10) + (last + tail);
      assert (last + tail)[1..] == tail;
    }
  }

  lemma DigitsInjective(m: nat, n: nat)
    requires Digits(m) == Digits(n)
    ensures m == n
  {
    DigitsRead(m, []);
    DigitsRead(n, []);
  }
}
