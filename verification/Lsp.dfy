/** Integer widths and positions shared by the modules. */
module Lsp {
  type uint32 = x: int | 0 <= x < 0x1_0000_0000

  datatype Option<+T> = None | Some(value: T)

  /** Zero-based source position. */
  datatype Pos = Pos(line: uint32, character: uint32)

  predicate Before(a: Pos, b: Pos) {
    a.line < b.line || (a.line == b.line && a.character < b.character)
  }

  predicate AtMost(a: Pos, b: Pos) {
    a == b || Before(a, b)
  }
}
