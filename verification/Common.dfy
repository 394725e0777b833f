/** Small things several modules share. */
module Common {
  datatype Option<T> = None | Some(value: T)

  /** `Duration::from_secs(1) / frequency`: whole nanoseconds, rounded down. */
  function Period(frequency: nat): nat
    requires frequency > 0
  {
    1_000_000_000 / frequency
  }

  function Digit(d: nat): char
    requires d < 10
  {
    (d as char) + '0'
  }

  function Decimal(n: nat): (s: string)
    ensures s != [] && forall i :: 0 <= i < |s| ==> '0' <= s[i] <= '9'
  {
    if n < 10 then [Digit(n)] else Decimal(n / 10) + [Digit(n % 10)]
  }

  /** The number a text of decimal digits stands for. */
  function NumberOf(s: string): nat {
    if s == [] then 0
    else 10 * NumberOf(s[..|s| - 1]) + if '0' <= s[|s| - 1] <= '9' then (s[|s| - 1] - '0') as nat else 0
  }

  lemma {:induction false} DecimalBack(n: nat)
    ensures NumberOf(Decimal(n)) == n
  {
    if n >= 10 {
      DecimalBack(n / 10);
      assert Decimal(n)[..|Decimal(n)| - 1] == Decimal(n / 10);
    } else {
      assert NumberOf([]) == 0;
    }
  }
}
