/** Types and constants shared by the writer thread and the HTTP handlers
    of the OTA upload firmware (src/main.rs). */
module Common {

  /** One octet of a request body or of the firmware image. */
  type byte = x: int | 0 <= x < 0x100

  /** The target is a 32-bit ESP32, so `usize` has 32 bits. */
  const USIZE_MODULUS: nat := 0x1_0000_0000
  const USIZE_MAX: nat := USIZE_MODULUS - 1

  type u64 = x: int | 0 <= x < 0x1_0000_0000_0000_0000
  type usize = x: int | 0 <= x < 0x1_0000_0000

  /** `MAX_LEN`: the largest content length a handler accepts. */
  const MAX_LEN: nat := 4096

  datatype Option<+T> = None | Some(value: T) {
    function GetOr(default: T): T {
      match this
      case Some(v) => v
      case None => default
    }
  }

  /** Rust's `n as usize` for a `u64` on a 32-bit target keeps the low 32 bits. */
  function AsUsize(n: u64): (r: usize)
    ensures n < USIZE_MODULUS ==> r == n
    ensures n >= USIZE_MODULUS ==> r < n
  {
    n % USIZE_MODULUS
  }

  /** `AtomicUsize::fetch_add` wraps around on overflow; this is the stored sum. */
  function WrappingAdd(a: usize, b: nat): (r: usize)
    ensures a + b < USIZE_MODULUS ==> r == a + b
    ensures (r - a - b) % USIZE_MODULUS == 0
  {
    (a + b) % USIZE_MODULUS
  }

  /** Two wrapping additions are one wrapping addition of the sum. */
  lemma WrappingAddTwice(a: usize, x: nat, y: nat)
    ensures WrappingAdd(WrappingAdd(a, x), y) == WrappingAdd(a, x + y)
  {
    var q := (a + x) / USIZE_MODULUS;
    assert WrappingAdd(a, x) == a + x - q * USIZE_MODULUS;
    assert a + x + y == (WrappingAdd(a, x) + y) + q * USIZE_MODULUS;
  }

  /** A counter advanced by `x` and then by `y` has advanced by `x + y`. */
  lemma WrappingAddChain(a: usize, b: usize, c: usize, x: nat, y: nat)
    requires b == WrappingAdd(a, x) && c == WrappingAdd(b, y)
    ensures c == WrappingAdd(a, x + y)
  {
    WrappingAddTwice(a, x, y);
  }
}
