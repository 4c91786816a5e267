/** 12-bit 802.11 sequence numbers and their unbounded ("absolute") counterparts. */
module SeqNum {
  const SN_SPACE := 4096
  const SN_HALF := 2048

  type Sn = x: int | 0 <= x < 4096

  predicate SnLess(a: Sn, b: Sn) { (a - b) % SN_SPACE > SN_HALF }

  function SnInc(a: Sn): Sn { (a + 1) % SN_SPACE }

  function SnSub(a: Sn, b: int): Sn { (a - b) % SN_SPACE }

  /** The 12-bit number that an absolute sequence number is sent as. */
  function Wrap(x: int): Sn { x % SN_SPACE }

  /** The absolute number a receiver whose head is `head` reads `sn` as:
      up to 2048 ahead of the head, otherwise behind it. */
  function Resolve(head: int, sn: Sn): (x: int)
    ensures Wrap(x) == sn
    ensures head - SN_HALF < x <= head + SN_HALF
  {
    var d := (sn - head) % SN_SPACE;
    if d > SN_HALF then head + d - SN_SPACE else head + d
  }

  /** Whole turns of the number space do not matter. */
  lemma Turns(a: int, b: int, q: int)
    requires a == b + SN_SPACE * q
    ensures a % SN_SPACE == b % SN_SPACE
  {
    var r := b % SN_SPACE;
    assert a == SN_SPACE * (b / SN_SPACE + q) + r;
  }

  lemma WrapQuotient(x: int)
    ensures x == Wrap(x) + SN_SPACE * (x / SN_SPACE)
  {}

  /** Wrapping then resolving gives the number back exactly when it lies in
      (head - 2048, head + 2048]. */
  lemma ResolveWrap(head: int, x: int)
    ensures Resolve(head, Wrap(x)) == x <==> head - SN_HALF < x <= head + SN_HALF
  {
    if head - SN_HALF < x <= head + SN_HALF {
      WrapQuotient(x);
      Turns(Wrap(x) - head, x - head, -(x / SN_SPACE));
    }
  }

  /** The wrapped comparison orders every sequence number as its absolute
      counterpart relative to the head. */
  lemma SnLessIsOrder(head: int, sn: Sn)
    ensures SnLess(sn, Wrap(head)) <==> Resolve(head, sn) < head
  {
    WrapQuotient(head);
    Turns(sn - Wrap(head), sn - head, head / SN_SPACE);
  }

  lemma WrapAdd(x: int, n: int)
    ensures Wrap(Wrap(x) + n) == Wrap(x + n)
  {
    WrapQuotient(x);
    Turns(Wrap(x) + n, x + n, -(x / SN_SPACE));
  }

  lemma WrapDifference(x: int, y: int)
    ensures SnSub(Wrap(x), Wrap(y)) == Wrap(x - y)
  {
    WrapQuotient(x);
    WrapQuotient(y);
    Turns(Wrap(x) - Wrap(y), x - y, y / SN_SPACE - x / SN_SPACE);
  }
}
