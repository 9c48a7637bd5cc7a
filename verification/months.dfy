/** Month of the year as a cyclic index: January is 0, December is 11. */
module Months {

  /** Number of months. */
  const N: nat := 12

  /** Ordered by its index, like the derived `Ord` in backup-rs. */
  datatype Month = Month(month: nat)

  function January(): Month { Month(0) }
  function February(): Month { Month(1) }
  function March(): Month { Month(2) }
  function April(): Month { Month(3) }
  function May(): Month { Month(4) }
  function June(): Month { Month(5) }
  function July(): Month { Month(6) }
  function August(): Month { Month(7) }
  function September(): Month { Month(8) }
  function October(): Month { Month(9) }
  function November(): Month { Month(10) }
  function December(): Month { Month(11) }

  /** `From<u32>`: wraps any number cyclically onto a month. */
  function FromU32(value: nat): (m: Month)
    ensures January().month <= m.month <= December().month
    ensures value < N ==> m.month == value
    ensures value - m.month == (value / N) * N
  {
    Month(value % N)
  }

  /** `Into<u32>`: the stored index. */
  function IntoU32(m: Month): nat {
    m.month
  }

  /** The derived ordering compares indices. */
  predicate Le(a: Month, b: Month) {
    a.month <= b.month
  }

  /** The twelve named months are the indices 0 to 11, in order. */
  lemma NamedMonths()
    ensures [IntoU32(January()), IntoU32(February()), IntoU32(March()), IntoU32(April()),
             IntoU32(May()), IntoU32(June()), IntoU32(July()), IntoU32(August()),
             IntoU32(September()), IntoU32(October()), IntoU32(November()), IntoU32(December())]
            == [0, 1, 2, 3, 4, 5, 6, 7, 8, 9, 10, 11]
    ensures FromU32(17) == June() && FromU32(12) == January()
  {
  }

  /** `into(from(v)) == v mod 12 < 12`, `from(into(m)) == m` on proper months,
      and every month built by `from` lies between January and December. */
  lemma {:induction false} ConversionRoundTrip(v: nat, m: Month)
    requires m.month < N
    ensures IntoU32(FromU32(v)) == v % N < N
    ensures FromU32(IntoU32(m)) == m
    ensures Le(January(), FromU32(v)) && Le(FromU32(v), December())
  {
  }

  /** Wrapping is periodic: numbers twelve apart name the same month. */
  lemma {:induction false} FromU32Periodic(value: nat)
    ensures FromU32(value + N) == FromU32(value)
  {
  }
}
