/** The behaviour bits of flags.go; Flags is a Go uint, modelled as 64 bits. */
module Flags {

  type Flags = bv64

  const WITH_DATE: Flags := 1 << 0
  const WITH_GOROUTINE_ID: Flags := 1 << 1
  const WITH_COLOR: Flags := 1 << 2

  /** `f & flag != 0` */
  predicate Has(f: Flags, flag: Flags) { f & flag != 0 }

  /** `f &^ flag` */
  function Without(f: Flags, flag: Flags): (r: Flags)
    ensures r & flag == 0
    ensures r | flag == f | flag
  {
    f & !flag
  }

  /** The three flags are the single bits 1, 2 and 4. */
  lemma Values()
    ensures WITH_DATE == 1 && WITH_GOROUTINE_ID == 2 && WITH_COLOR == 4
    ensures WITH_DATE & WITH_GOROUTINE_ID == 0 && WITH_DATE & WITH_COLOR == 0
    ensures WITH_GOROUTINE_ID & WITH_COLOR == 0
  {
  }

  /** Any OR-combination sets exactly the bits it names. */
  lemma Combination(date: bool, gid: bool, color: bool)
    ensures var f := (if date then WITH_DATE else 0) | (if gid then WITH_GOROUTINE_ID else 0)
                     | (if color then WITH_COLOR else 0);
      && (Has(f, WITH_DATE) <==> date)
      && (Has(f, WITH_GOROUTINE_ID) <==> gid)
      && (Has(f, WITH_COLOR) <==> color)
  {
  }

  /** Clearing a flag leaves it clear. */
  lemma WithoutClears(f: Flags, flag: Flags)
    ensures !Has(Without(f, flag), flag)
  {
  }

  /** Clearing a flag loses no bit but that one. */
  lemma WithoutRestorable(f: Flags, flag: Flags)
    ensures Without(f, flag) | flag == f | flag
  {
  }

  /** Clearing a flag leaves every disjoint bit as it was. */
  lemma WithoutKeepsOthers(f: Flags, flag: Flags, other: Flags)
    requires other & flag == 0
    ensures Without(f, flag) & other == f & other
  {
  }
}
