/**
 The few Kotlin types the view models rely on: the 32-bit `Int` with its
 wrap-around addition, nullable references, and an opaque `Throwable`.
 */
module KotlinTypes {

  const INT32_MIN: int := -0x8000_0000
  const INT32_MAX: int := 0x7FFF_FFFF

  /** Kotlin's `Int`: a two's-complement 32-bit integer. */
  type Int32 = x: int | INT32_MIN <= x <= INT32_MAX

  /** Kotlin's `a + b` on `Int`: the mathematical sum reduced into the 32-bit range. */
  function WrapAdd(a: Int32, b: Int32): (r: Int32)
    ensures INT32_MIN <= a + b <= INT32_MAX ==> r == a + b
    ensures a + b > INT32_MAX ==> r == a + b - 0x1_0000_0000 && r < 0
    ensures a + b < INT32_MIN ==> r == a + b + 0x1_0000_0000 && r >= 0
  {
    (a + b - INT32_MIN) % 0x1_0000_0000 + INT32_MIN
  }

  /** A Kotlin nullable reference `T?`. */
  datatype Nullable<T> = Null | NonNull(value: T)

  /**
   A failure delivered to an Rx error callback. `Throwable` does not override
   `equals`, so two failures are equal exactly when they are the same object:
   the model keeps only that object's identity.
   */
  datatype Throwable = Throwable(identity: nat)
}
