/** The machine's constants: 64-bit words and 4 KiB pages (kernel/src/mm/page.h). */
module Machine {
  const WORD: nat := 0x1_0000_0000_0000_0000  // 2^64
  const PAGE_SIZE: nat := 4096

  // The next page boundary.
  function RoundUp(x: nat): (r: nat)
    ensures x <= r < x + PAGE_SIZE && r % PAGE_SIZE == 0
  {
    (x + PAGE_SIZE - 1) / PAGE_SIZE * PAGE_SIZE
  }

  // PAGE_ALIGN_UP in 64-bit arithmetic.
  function AlignUp(x: nat): nat {
    RoundUp(x) % WORD
  }
}
