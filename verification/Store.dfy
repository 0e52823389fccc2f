/** A store of 32-bit words by address; a word that was never written reads zero. */
module Store {
  import opened Bits

  type Addr = Word

  type Memory = map<Addr, Word>

  function Load(mem: Memory, a: Addr): Word {
    if a in mem then mem[a] else 0
  }
}
