/**
 Word sizes of a 64-bit machine, and pages of 4 KiB.
 */
module MachineWords {

  const TWO_16: nat := 0x1_0000
  const TWO_31: nat := 0x8000_0000
  const TWO_32: nat := 0x1_0000_0000
  const TWO_64: nat := 0x1_0000_0000_0000_0000
  const PAGE: nat := 0x1000

  function U32(x: int): nat {
    x % TWO_32
  }

  function U64(x: int): nat {
    x % TWO_64
  }

  function TruncPage(a: nat): nat {
    a / PAGE * PAGE
  }

  function RoundPage(a: nat): nat {
    TruncPage(U64(a + PAGE - 1))
  }
}
