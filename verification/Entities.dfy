/** Entity handles: a slot index and a generation packed into 64 bits, zero being null. */
module Entities {
  const WORD := 0x1_0000_0000

  /** A 32-bit unsigned value, and a packed handle. */
  type Word = x: nat | x < WORD witness 0

  type Handle = x: nat | x < WORD * WORD witness 0

  const NULL: Handle := 0

  function Pack(index: Word, generation: Word): Handle { generation * WORD + index }

  function Index(h: Handle): Word { h % WORD }

  function Generation(h: Handle): Word { h / WORD }

  /** Packing loses nothing, either way; a packed handle is null only in slot zero at
      generation zero. */
  lemma PackRoundTrip(h: Handle, index: Word, generation: Word)
    ensures Pack(Index(h), Generation(h)) == h == Index(h) + 0x1_0000_0000 * Generation(h)
    ensures Index(Pack(index, generation)) == index && Generation(Pack(index, generation)) == generation
    ensures Pack(index, generation) == NULL <==> index == 0 && generation == 0
  {
  }
}
