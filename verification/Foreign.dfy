/** What librec leaves to the libraries below it, as parameters, and its helpers for them in
    src/rec-utils.c. */
module Foreign {
  import opened Wrappers
  import opened Numbers

  type Nanos = n: int | 0 <= n < 1_000_000_000

  /** A point in time: seconds and nanoseconds. */
  datatype Time = Time(sec: int, nsec: Nanos)

  /** What the C library and the date and regexp libraries make of strings, whether an
      expression ignores case, and what variables hold that the source reads without having set
      them (the operand number tells which). */
  datatype Env = Env(
    caseInsensitive: bool,
    strtod: string -> Option<real>,
    isTrue: string -> bool,
    sameFolded: (string, string) -> bool,
    matches: (string, string, bool) -> bool,
    date: string -> Option<Time>,
    divide: (real, real) -> real,
    unset: nat -> CInt)

  /** `rec_atod`: the whole of a non-empty string. */
  function Atod(env: Env, s: string): Option<real> { if s == "" then None else env.strtod(s) }

  /** `rec_timespec_subtract` with its borrow: the difference, and whether it is negative. */
  function Subtract(x: Time, y: Time): (Time, bool) {
    var sec, nsec := x.sec - y.sec, x.nsec - y.nsec;
    if nsec < 0 then (Time(sec - 1, nsec + 1_000_000_000), sec - 1 < 0) else (Time(sec, nsec), sec < 0)
  }

  function Total(t: Time): int { t.sec * 1_000_000_000 + t.nsec }

  /** The borrow is right: the difference is the difference of the two times. */
  lemma SubtractIsDifference(x: Time, y: Time)
    ensures Total(Subtract(x, y).0) == Total(x) - Total(y)
    ensures Subtract(x, y).1 <==> Total(x) < Total(y)
    ensures Subtract(x, y).0 == Time(0, 0) <==> x == y
  {
  }
}
