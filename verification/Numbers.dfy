/** The smaller of two numbers, for dates and for pieces alike. */
module Numbers {

  function Min(a: int, b: int): int {
    if a <= b then a else b
  }
}
