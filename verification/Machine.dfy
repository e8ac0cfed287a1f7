/** The sizes of the machine: a word holds BASE values, a page PGSIZE bytes. */
module Machine {
  const BASE: nat := 0x1_0000_0000
  const PGSIZE := 4096

  function Min(x: int, y: int): (m: int) { if x < y then x else y }
}
