/** The two reference models behind one interface cannot be told apart by any trace. */
module CacheAgreement {
  import opened Words
  import CacheSpec
  import opened CacheTheorems
  import opened LineBuffer

  /** Started from equal memory, the write-back cache and the write-through buffer return the same word
      for every load, and at the end the cache stands for the memory the buffer has written through. */
  lemma ModelsAgree(mem: seq<Word>, buffer: seq<Word>, ops: seq<Op>)
    requires |mem| % 16 == 0 && Legal(|mem|, ops)
    ensures CacheSpec.Inv(Reset(mem)) && CacheSpec.Inv(CacheRun(Reset(mem), ops).state)
    ensures CacheRun(Reset(mem), ops).loads == BufferRun(Buffered(buffer, mem), ops).loads
    ensures CacheSpec.View(CacheRun(Reset(mem), ops).state) == BufferRun(Buffered(buffer, mem), ops).state.mem
  {
    hide *;
    WholeLines(|mem|);
    CacheFromReset(mem, ops);
    BufferFromStart(mem, buffer, ops);
  }

  lemma WholeLines(words: nat)
    requires words % 16 == 0
    ensures words % 4 == 0
  {
    assert words == 4 * (4 * (words / 16));
  }

  lemma CacheFromReset(mem: seq<Word>, ops: seq<Op>)
    requires |mem| % 4 == 0 && Legal(|mem|, ops)
    ensures CacheSpec.Inv(Reset(mem)) && Reset(mem).mem == mem && CacheSpec.Inv(CacheRun(Reset(mem), ops).state)
    ensures CacheRun(Reset(mem), ops).loads == FlatRun(mem, ops).loads
    ensures CacheSpec.View(CacheRun(Reset(mem), ops).state) == FlatRun(mem, ops).state
  {
    hide CacheSpec.Inv, CacheSpec.View, CacheRun, FlatRun, Legal, EmptySet;
    ResetStandsForMemory(mem);
    CacheRefinesMemory(Reset(mem), ops);
  }

  lemma BufferFromStart(mem: seq<Word>, buffer: seq<Word>, ops: seq<Op>)
    requires |mem| % 16 == 0 && Legal(|mem|, ops)
    ensures BufferRun(Buffered(buffer, mem), ops).loads == FlatRun(mem, ops).loads
    ensures BufferRun(Buffered(buffer, mem), ops).state.mem == FlatRun(mem, ops).state
  {
    hide *;
    BufferRefinesMemory(Buffered(buffer, mem), ops);
  }
}
