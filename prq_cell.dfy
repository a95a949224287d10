/**
 * The `Cell` word helpers shared by the ring segments of
 * rust-queues/src/lprq/prq.rs, rust-queues/src/lprq/arc_lprq/prq.rs and
 * rust-queues/src/lcrq/crq.rs: a cell's safe bit and epoch are packed into
 * one 64-bit word, bit 63 being `safe` and bits 0..62 the epoch.
 */
module PrqCell {
  const SAFE_BIT_MASK: bv64 := 1 << 63
  const EPOCH_MASK: bv64 := !SAFE_BIT_MASK
  const TOKEN_MASK: bv64 := 1 << 63

  /** `sae_from_usize`: the safe bit and the low 63 bits. */
  function SaeFromWord(raw: bv64): (r: (bool, bv64))
    ensures r.1 < 1 << 63
    ensures r.0 <==> raw >= 1 << 63
  {
    (raw & SAFE_BIT_MASK != 0, raw & EPOCH_MASK)
  }

  /** `usize_from_sae`: the safe bit shifted to bit 63, ORed with the epoch. */
  function WordFromSae(safe: bool, epoch: bv64): (r: bv64)
    ensures r & EPOCH_MASK == epoch & EPOCH_MASK
    ensures r >= 1 << 63 <==> safe || epoch >= 1 << 63
  {
    ((if safe then 1 else 0) as bv64 << 63) | epoch
  }

  /** Packing then unpacking gives back any stamp whose epoch fits in 63 bits. */
  lemma SaeRoundTrip(safe: bool, epoch: bv64)
    requires epoch < 1 << 63
    ensures SaeFromWord(WordFromSae(safe, epoch)) == (safe, epoch)
  {
  }

  /** Unpacking then packing gives back every word. */
  lemma WordRoundTrip(raw: bv64)
    ensures WordFromSae(SaeFromWord(raw).0, SaeFromWord(raw).1) == raw
  {
  }

  /**
   * Comparing packed words is comparing stamps (as long as epochs fit in
   * 63 bits), which is why the stamp compare-exchange is modelled on
   * `(safe, epoch)` pairs.
   */
  lemma PackInjective(s: bool, e: bv64, s': bool, e': bv64)
    requires e < 1 << 63 && e' < 1 << 63
    ensures WordFromSae(s, e) == WordFromSae(s', e') <==> s == s' && e == e'
  {
    if WordFromSae(s, e) == WordFromSae(s', e') {
      SaeRoundTrip(s, e);
      SaeRoundTrip(s', e');
    }
  }

  /** A default cell holds `SAFE_BIT_MASK`, which decodes to (safe, epoch 0). */
  lemma DefaultStamp()
    ensures SaeFromWord(SAFE_BIT_MASK) == (true, 0)
  {
  }

  /** `make_token`: the thread id ANDed with bit 63, as written in prq.rs. */
  function MakeToken(threadId: bv64): (r: bv64)
    ensures r == 0 || r == TOKEN_MASK
  {
    threadId & TOKEN_MASK
  }

  /** `is_token`: bit 63 of the pointer's address. */
  predicate IsToken(addr: bv64)
  {
    (addr & TOKEN_MASK) >> 63 == 1
  }

  /**
   * Because of the AND, an id below 2^63 gives the null address, which is
   * not a token; only an id with bit 63 set gives a token.
   */
  lemma TokenOfSmallIdIsNull(threadId: bv64)
    ensures threadId < 1 << 63 ==> MakeToken(threadId) == 0
    ensures IsToken(MakeToken(threadId)) <==> threadId >= 1 << 63
  {
  }
}
