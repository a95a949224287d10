/**
 * The tagged word of ms-rust/src/atomic_tagged.rs. Its tag mask is
 * `0xFF << 48`, so only bits 48..55 are cleared on a load although `new`
 * shifts a 16-bit tag into bits 48..63.
 */
module AtomicTagged {
  const TAG_MASK: bv64 := 0xFF << 48
  const ADDR_MASK: bv64 := !TAG_MASK

  /** Never changed after `new`, so it is a value. */
  datatype AtomicTagged = AtomicTagged(data: bv64)

  /** `new(ptr, tag)`: the address ORed with the tag shifted into bits 48..63. */
  function New(addr: bv64, tag: bv16): (r: AtomicTagged)
    ensures r.data & 0x0000_FFFF_FFFF_FFFF == addr & 0x0000_FFFF_FFFF_FFFF
    ensures addr < 1 << 48 ==> r.data >> 48 == tag as bv64
  {
    AtomicTagged(addr | ((tag as bv64) << 48))
  }

  /** `load`: the word with bits 48..55 cleared. */
  function Load(a: AtomicTagged): (r: bv64)
    ensures r & TAG_MASK == 0
    ensures r | (a.data & TAG_MASK) == a.data
  {
    a.data & ADDR_MASK
  }

  /** `load_tag`: the word shifted right by 48. */
  function LoadTag(a: AtomicTagged): (r: bv16)
    ensures (r as bv64) << 48 == a.data & (0xFFFF << 48)
  {
    (a.data >> 48) as bv16
  }

  /** An address below 2^48 and a tag below 256 both come back (the test uses tag 2). */
  lemma RoundTrip(addr: bv64, tag: bv16)
    requires addr < 1 << 48 && tag < 256
    ensures Load(New(addr, tag)) == addr && LoadTag(New(addr, tag)) == tag
  {
  }

  /** `load_tag` returns any 16-bit tag exactly: it shifts the whole word. */
  lemma TagRoundTrip(addr: bv64, tag: bv16)
    requires addr < 1 << 48
    ensures LoadTag(New(addr, tag)) == tag
  {
  }

  /** A tag of 256 or more leaves bits 56..63 in what `load` returns. */
  lemma WideTagCorruptsAddress(addr: bv64, tag: bv16)
    requires addr < 1 << 48 && tag >= 256
    ensures Load(New(addr, tag)) != addr
    ensures Load(New(addr, tag)) == addr | (((tag >> 8) as bv64) << 56)
  {
  }
}
