/**
 The 64-bit encoding behind the entry fields of `PageWalk`: the words the kernel
 stores decode to the fields the walk reads, and sanitising clears USER alone.
 */
module PageEntry {
  const PRESENT: bv64 := 0x1
  const WRITABLE: bv64 := 0x2
  const USER: bv64 := 0x4
  const HUGE: bv64 := 0x80
  const NO_EXECUTE: bv64 := 0x8000_0000_0000_0000
  const ADDRESS_MASK: bv64 := 0x000f_ffff_ffff_f000

  datatype Fields = Fields(present: bool, writable: bool, user: bool, huge: bool, noExecute: bool, address: bv64)

  function Decode(word: bv64): Fields {
    Fields(word & PRESENT != 0, word & WRITABLE != 0, word & USER != 0, word & HUGE != 0, word & NO_EXECUTE != 0,
           word & ADDRESS_MASK)
  }

  function LinkWord(child: bv64): (word: bv64)
    requires child & !ADDRESS_MASK == 0
    ensures Decode(word) == Fields(true, true, true, false, false, child)
  {
    child | PRESENT | WRITABLE | USER
  }

  /** `rights` holds WRITABLE for a writable page and NO_EXECUTE for one that is not executable. */
  function LeafWord(frame: bv64, rights: bv64): (word: bv64)
    requires frame & !ADDRESS_MASK == 0
    requires rights & !(WRITABLE | NO_EXECUTE) == 0
    ensures Decode(word) == Fields(true, rights & WRITABLE != 0, true, false, rights & NO_EXECUTE != 0, frame)
  {
    frame | PRESENT | USER | rights
  }

  function SanitizedWord(word: bv64): (clean: bv64)
    ensures Decode(clean) == Decode(word).(user := false)
    ensures clean | USER == word | USER
  {
    word & !USER
  }
}
