/** Classes of characters, by code. */
module Characters {

  /** What trim and \s regard as white space. */
  predicate Whitespace(u: int) {
    || 0x09 <= u <= 0x0D || u == 0x20 || u == 0xA0 || u == 0x1680 || 0x2000 <= u <= 0x200A
    || u == 0x2028 || u == 0x2029 || u == 0x202F || u == 0x205F || u == 0x3000 || u == 0xFEFF
  }
}
