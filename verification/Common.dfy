/** 32-bit integers and an optional result. */
module Common {

  const TWO_31: nat := 0x8000_0000
  const TWO_32: nat := 0x1_0000_0000

  /** The int that has the same 32 bits. */
  function Signed32(n: nat): (i: int)
    ensures -0x8000_0000 <= i < 0x8000_0000 && (n - i) % 0x1_0000_0000 == 0
  {
    var word := n % TWO_32;
    if word < TWO_31 then word else word - TWO_32
  }

  /** lseek reports the new offset as an int, in which 2^31 and more is negative. */
  predicate Seekable(offset: nat) { offset < TWO_31 }

  /** For an offset of 32 bits, it is the sign that decides. */
  lemma SeekableMeans(offset: nat)
    requires offset < 0x1_0000_0000
    ensures Seekable(offset) <==> Signed32(offset) >= 0
  {}

  datatype Option<T> = None | Some(value: T)
}
