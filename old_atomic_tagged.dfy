/**
 * The tagged pointer of ms-rust/src/old_code/atomic_tagged.rs: a 48-bit
 * address in bits 0..47 and a 16-bit tag in bits 48..63 of one 64-bit word.
 * Addresses are modelled as the word they occupy.
 */
module OldAtomicTagged {
  import opened Wrappers

  const TAG_MASK: bv64 := 0xFFFF << 48
  const ADDR_MASK: bv64 := !TAG_MASK

  /** A copyable tagged word. */
  datatype TaggedPointer = TaggedPointer(data: bv64)

  /** `TaggedPointer::new`: OR the tag, shifted left by 48, into the address. */
  function New(addr: bv64, tag: bv16): (r: TaggedPointer)
    ensures addr < 1 << 48 ==> r.data >> 48 == tag as bv64
    ensures r.data & ADDR_MASK == addr & ADDR_MASK
  {
    TaggedPointer(addr | ((tag as bv64) << 48))
  }

  /** `ptr`: the word with bits 48..63 cleared. */
  function Ptr(p: TaggedPointer): (r: bv64)
    ensures r < 1 << 48
    ensures r | (p.data & TAG_MASK) == p.data
  {
    p.data & ADDR_MASK
  }

  /** `tag`: the word shifted right by 48, truncated to 16 bits. */
  function Tag(p: TaggedPointer): (r: bv16)
    ensures (r as bv64) << 48 == p.data & TAG_MASK
  {
    (p.data >> 48) as bv16
  }

  /** `with_tag`: a new word with the same address and the given tag. */
  function WithTag(p: TaggedPointer, tag: bv16): (r: TaggedPointer)
    ensures Ptr(r) == Ptr(p) && Tag(r) == tag
  {
    New(Ptr(p), tag)
  }

  /** `eq`: the whole words are compared, tag included. */
  predicate Eq(p: TaggedPointer, q: TaggedPointer)
  {
    p.data == q.data
  }

  lemma RoundTrip(addr: bv64, tag: bv16)
    requires addr < 1 << 48
    ensures Ptr(New(addr, tag)) == addr && Tag(New(addr, tag)) == tag
  {
  }

  /** Same address but different tags: not equal, so an ABA reuse is caught. */
  lemma EqSeesTag(addr: bv64, t: bv16, u: bv16)
    requires addr < 1 << 48
    ensures Eq(New(addr, t), New(addr, u)) <==> t == u
  {
    RoundTrip(addr, t);
    RoundTrip(addr, u);
  }

  /** Two words are equal exactly when their addresses and their tags are. */
  lemma EqIffFields(p: TaggedPointer, q: TaggedPointer)
    ensures Eq(p, q) <==> Ptr(p) == Ptr(q) && Tag(p) == Tag(q)
  {
  }

  /** The atomic cell holding a tagged word. */
  class AtomicTagged {
    var data: bv64

    /** `AtomicTagged::new`: holds the word `TaggedPointer::new` builds. */
    constructor (addr: bv64, tag: bv16)
      ensures data == New(addr, tag).data
    {
      data := New(addr, tag).data;
    }

    /** `load`: a read that changes nothing. */
    method Load() returns (p: TaggedPointer)
      ensures p.data == data
    {
      p := TaggedPointer(data);
    }

    /**
     * `compare_exchange`: stores `desired` (the source's `new`) and returns `Ok(previous)` when the
     * stored word equals `current`; otherwise returns `Err(actual)` and leaves
     * the word as it was.
     */
    method CompareExchange(current: TaggedPointer, desired: TaggedPointer) returns (r: Result<TaggedPointer, TaggedPointer>)
      modifies this
      ensures r == (if old(data) == current.data then Ok(TaggedPointer(old(data))) else Err(TaggedPointer(old(data))))
      ensures data == (if old(data) == current.data then desired.data else old(data))
    {
      if data == current.data {
        r := Ok(TaggedPointer(data));
        data := desired.data;
      } else {
        r := Err(TaggedPointer(data));
      }
    }
  }

  /** The test at lines 99-112: address and tag 311 come back from a load. */
  method TestBasic(addr: bv64) returns (loaded: TaggedPointer)
    requires addr < 1 << 48
    ensures Ptr(loaded) == addr && Tag(loaded) == 311
  {
    var tagged := new AtomicTagged(addr, 311);
    loaded := tagged.Load();
    RoundTrip(addr, 311);
  }
}
