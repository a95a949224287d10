/**
 * The tagged pointer of ms-rust/src/tagged_ptr.rs: an atomic 64-bit word whose
 * bits 48..63 are a tag. The word helpers are pure; `compare_exchange`
 * updates the stored word.
 */
module TaggedPtr {
  import opened Wrappers

  const ADDR_MASK: bv64 := 0x0000_FFFF_FFFF_FFFF
  const ONE_TAG: bv64 := 1 << 48

  /** `remove_tag`: the low 48 bits. */
  function RemoveTag(w: bv64): (r: bv64)
    ensures r < 1 << 48
  {
    w & ADDR_MASK
  }

  /**
   * `tag`: `w >> 48` converted to u16. The shifted word always fits, so the
   * `try_into().unwrap()` never fails: the conversion is total here.
   */
  function Tag(w: bv64): (r: bv16)
    ensures r as bv64 == w >> 48
  {
    (w >> 48) as bv16
  }

  /**
   * `set_tag(old, _)`: ignores its tag argument and adds `1 << 48`. When the
   * tag is already 0xFFFF the usize addition overflows, which panics in a
   * debug build: that outcome is `None`.
   */
  function SetTag(w: bv64, tag: bv16): (r: Option<bv64>)
    ensures r.None? <==> Tag(w) == 0xFFFF
  {
    if w >= 0xFFFF << 48 then None else Some(w + ONE_TAG)
  }

  /** The word `new(ptr, tag)` stores. */
  function Pack(addr: bv64, tag: bv16): (r: bv64)
    ensures RemoveTag(r) == RemoveTag(addr)
    ensures addr < 1 << 48 ==> Tag(r) == tag
  {
    addr | ((tag as bv64) << 48)
  }

  /** Every word is its address bits ORed with its tag shifted into place. */
  lemma Decompose(w: bv64)
    ensures w == Pack(RemoveTag(w), Tag(w))
  {
  }

  lemma RoundTrip(addr: bv64, tag: bv16)
    requires addr < 1 << 48
    ensures RemoveTag(Pack(addr, tag)) == addr && Tag(Pack(addr, tag)) == tag
  {
  }

  lemma AddOneTag(addr: bv64, tag: bv16)
    requires addr < 1 << 48 && tag < 0xFFFF
    ensures Pack(addr, tag) + ONE_TAG == Pack(addr, tag + 1)
  {
  }

  /** Whatever tag is passed, `set_tag` keeps the address bits and adds one to the tag. */
  lemma SetTagIncrements(w: bv64, tag: bv16)
    requires Tag(w) < 0xFFFF
    ensures SetTag(w, tag).Some?
    ensures RemoveTag(SetTag(w, tag).value) == RemoveTag(w)
    ensures Tag(SetTag(w, tag).value) == Tag(w) + 1
  {
    Decompose(w);
    AddOneTag(RemoveTag(w), Tag(w));
    RoundTrip(RemoveTag(w), Tag(w) + 1);
  }

  class TaggedPointer {
    var ptr: bv64

    /** `Default`: the word 0, which is null. */
    constructor Default()
      ensures ptr == 0
    {
      ptr := 0;
    }

    /** `new`: the address ORed with the tag shifted left by 48; no masking. */
    constructor New(addr: bv64, tag: bv16)
      ensures ptr == Pack(addr, tag)
    {
      ptr := Pack(addr, tag);
    }

    method Load() returns (w: bv64)
      ensures w == ptr
    {
      w := ptr;
    }

    /** `is_null`: the whole word is zero, tag included. */
    method IsNull() returns (b: bool)
      ensures b <==> ptr == 0
      ensures b ==> RemoveTag(ptr) == 0 && Tag(ptr) == 0
    {
      var w := Load();
      b := w == 0;
    }

    /** `compare_exchange`: a whole-word CAS on the stored usize. */
    method CompareExchange(current: bv64, desired: bv64) returns (r: Result<bv64, bv64>)
      modifies this
      ensures r == (if old(ptr) == current then Ok(old(ptr)) else Err(old(ptr)))
      ensures ptr == (if old(ptr) == current then desired else old(ptr))
    {
      if ptr == current {
        r := Ok(ptr);
        ptr := desired;
      } else {
        r := Err(ptr);
      }
    }
  }

  /** A null address with a non-zero tag is not null. */
  lemma TaggedNullIsNotNull(tag: bv16)
    requires tag != 0
    ensures Pack(0, tag) != 0 && RemoveTag(Pack(0, tag)) == 0
  {
  }
}
