/** Notions several modules share. */
module Common {
  datatype Option<A> = None | Some(value: A)

  lemma Associate<T>(a: seq<T>, b: seq<T>, c: seq<T>)
    ensures (a + b) + c == a + (b + c)
  {
  }
}

/** The layout of a page and the address of an item on it. */
module PageLayout {
  const BLCKSZ := 8192
  const PAGE_HEADER := 24
  const ITEM_ID := 4

  function MaxAlign(n: nat): nat { (n + 7) / 8 * 8 }

  datatype Tid = Tid(block: nat, offset: nat)
}
