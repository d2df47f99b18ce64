/** Words, pages and partial results, as all components use them. */
module Machine {

  datatype Option<+T> = None | Some(value: T)

  type u32 = x: int | 0 <= x < 0x1_0000_0000

  const TWO32 := 0x1_0000_0000

  const PAGE_SIZE := 4096
}
