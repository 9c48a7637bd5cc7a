/** Day of the week as a cyclic index: Monday is 0, Sunday is 6. */
module Weekdays {

  /** Number of weekdays. */
  const N: nat := 7

  /** The index is private in backup-rs and every public constructor keeps
      it below `N`; the model keeps it a plain `nat` and states that bound. */
  datatype Weekday = Weekday(day: nat)

  function Monday(): Weekday { Weekday(0) }
  function Tuesday(): Weekday { Weekday(1) }
  function Wednesday(): Weekday { Weekday(2) }
  function Thursday(): Weekday { Weekday(3) }
  function Friday(): Weekday { Weekday(4) }
  function Saturday(): Weekday { Weekday(5) }
  function Sunday(): Weekday { Weekday(6) }

  /** `From<u32>`: wraps any number cyclically onto a weekday. */
  function FromU32(value: nat): (w: Weekday)
    ensures w.day < N
    ensures value < N ==> w.day == value
    ensures value - w.day == (value / N) * N
  {
    Weekday(value % N)
  }

  /** `Into<u32>`: the stored index. */
  function IntoU32(w: Weekday): nat {
    w.day
  }

  /** The day after `w`; Sunday wraps to Monday. */
  function Tomorrow(w: Weekday): (r: Weekday)
    requires w.day < N
    ensures r.day < N
    ensures w.day < 6 ==> r.day == w.day + 1
    ensures w == Sunday() ==> r == Monday()
  {
    Weekday((w.day + 1) % N)
  }

  /** The day before `w`; Monday wraps to Sunday. */
  function Yesterday(w: Weekday): (r: Weekday)
    requires w.day < N
    ensures r.day < N
    ensures w.day > 0 ==> r.day + 1 == w.day
    ensures w == Monday() ==> r == Sunday()
  {
    Weekday((N + w.day - 1) % N)
  }

  /** The seven named days are the numbers 0 to 6, in order, and numbers
      wrap onto them as documented: 5 is Saturday, 25 is Friday, and 7, 10,
      13 and 70 are Monday, Thursday, Sunday and Monday. */
  lemma NamedDays()
    ensures [IntoU32(Monday()), IntoU32(Tuesday()), IntoU32(Wednesday()), IntoU32(Thursday()),
             IntoU32(Friday()), IntoU32(Saturday()), IntoU32(Sunday())] == [0, 1, 2, 3, 4, 5, 6]
    ensures FromU32(0) == Monday() && FromU32(5) == Saturday() && FromU32(25) == Friday()
    ensures FromU32(7) == Monday() && FromU32(10) == Thursday() && FromU32(13) == Sunday()
            && FromU32(70) == Monday()
  {
  }

  /** `into(from(v)) == v mod 7` and `from(into(w)) == w` on proper weekdays. */
  lemma {:induction false} ConversionRoundTrip(v: nat, w: Weekday)
    requires w.day < N
    ensures IntoU32(FromU32(v)) == v % N
    ensures FromU32(IntoU32(w)) == w
  {
  }

  /** `yesterday` undoes `tomorrow` and vice versa. */
  lemma {:induction false} TomorrowYesterdayInverse(w: Weekday)
    requires w.day < N
    ensures Yesterday(Tomorrow(w)) == w
    ensures Tomorrow(Yesterday(w)) == w
  {
  }

  /** Wrapping is periodic: numbers seven apart name the same weekday. */
  lemma {:induction false} FromU32Periodic(value: nat)
    ensures FromU32(value + N) == FromU32(value)
  {
  }
}
