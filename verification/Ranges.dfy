/** Ranges of 64-bit addresses, as the image readers test them. */
module Ranges {
  import opened Bits

  predicate Inside(start: DWord, len: DWord, a: DWord) {
    start <= a && (start + len) % WRAP > a
  }

  predicate Apart(a: int, alen: int, b: int, blen: int) {
    a + alen <= b || b + blen <= a
  }

  lemma InsidePlain(start: DWord, len: DWord, a: DWord)
    requires start + len < WRAP
    ensures Inside(start, len, a) <==> start <= a < start + len
  {
  }
}
