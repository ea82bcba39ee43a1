/**
 The 32-bit numbers of the machine, which wrap around when they overflow.
 */
module MachineInts {

  /** What a signed 32-bit number keeps of n. */
  function Int32(n: int): (r: int)
    ensures -0x8000_0000 <= r < 0x8000_0000
  {
    (n + 0x8000_0000) % 0x1_0000_0000 - 0x8000_0000
  }

  lemma Int32Exact(n: int)
    ensures Int32(n) == n <==> -0x8000_0000 <= n < 0x8000_0000
  {
  }

  /** Wrapping once at the end is as good as wrapping at every step. */
  lemma Int32Add(m: int, n: int)
    ensures Int32(Int32(m) + n) == Int32(m + n)
  {
    var q := (m + 0x8000_0000) / 0x1_0000_0000;
    assert Int32(m) == m - q * 0x1_0000_0000;
    assert (Int32(m) + n + 0x8000_0000) / 0x1_0000_0000 == (m + n + 0x8000_0000) / 0x1_0000_0000 - q;
  }

  lemma Int32Digit(m: int, d: int)
    ensures Int32(Int32(m) * 10 + d) == Int32(m * 10 + d)
  {
    var q := (m + 0x8000_0000) / 0x1_0000_0000;
    assert Int32(m) == m - q * 0x1_0000_0000;
    assert Int32(m) * 10 + d == m * 10 + d - 10 * q * 0x1_0000_0000;
    assert (Int32(m) * 10 + d + 0x8000_0000) / 0x1_0000_0000 == (m * 10 + d + 0x8000_0000) / 0x1_0000_0000 - 10 * q;
  }

  /** What an unsigned 32-bit number keeps of n. */
  function Uint32(n: nat): (r: nat)
    ensures r < 0x1_0000_0000 && (r == n <==> n < 0x1_0000_0000)
  {
    n % 0x1_0000_0000
  }

  lemma Uint32Add(m: nat, n: nat)
    ensures Uint32(Uint32(m) + n) == Uint32(m + n)
  {
    var q := m / 0x1_0000_0000;
    assert Uint32(m) == m - q * 0x1_0000_0000;
    assert (Uint32(m) + n) / 0x1_0000_0000 == (m + n) / 0x1_0000_0000 - q;
  }
}
