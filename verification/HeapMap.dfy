/** The heap map: one bit per word of the address space, in pages allocated on demand. */
module HeapMap {

  // The layout for 64-bit images: 2^16 root entries, directories of 2^19 entries, pages of 2^23 bytes.
  const ROOT_PAGES: nat := 0x1_0000
  const DIRECTORY_ENTRIES: nat := 0x8_0000
  const PAGE_SIZE: nat := 0x80_0000
  const PAGE_SPAN: nat := 0x400_0000               // bytes of memory per page: shift 26
  const DIRECTORY_SPAN: nat := 0x2000_0000_0000    // bytes of memory per directory: shift 45
  const WORD: nat := 8
  /** Addresses from 2^61 on have no root entry. */
  const ADDRESS_LIMIT: nat := 0x2000_0000_0000_0000
  const USED_BYTES: nat := 0x10_0000               // the part of a page that addresses reach

  predicate Aligned(a: nat) {
    a % WORD == 0
  }

  // The shifts and masks of the source, as divisions and remainders by powers of two.
  function DirectoryIndex(a: nat): nat { a / DIRECTORY_SPAN }
  function PageIndex(a: nat): nat { (a / PAGE_SPAN) % DIRECTORY_ENTRIES }
  function ByteIndex(a: nat): nat { (a % PAGE_SPAN) / 64 }
  function BitIndex(a: nat): nat { (a / WORD) % 8 }

  predicate InRange(d: nat, p: nat, b: nat, k: nat) {
    d < ROOT_PAGES && p < DIRECTORY_ENTRIES && b < USED_BYTES && k < 8
  }

  /** The word whose bit is number `k` of byte `b` of page `p` of directory `d`. */
  function Address(d: nat, p: nat, b: nat, k: nat): nat {
    d * DIRECTORY_SPAN + p * PAGE_SPAN + b * 64 + k * WORD
  }

  /** Every aligned address below 2^61 has its place inside all three arrays, and the place
      determines the address. */
  lemma AddressHasPlace(a: nat)
    requires Aligned(a) && a < ADDRESS_LIMIT
    ensures InRange(DirectoryIndex(a), PageIndex(a), ByteIndex(a), BitIndex(a))
    ensures DirectoryIndex(a) < 65536 && PageIndex(a) < 524288 && ByteIndex(a) < 8388608 && BitIndex(a) < 8
    ensures Address(DirectoryIndex(a), PageIndex(a), ByteIndex(a), BitIndex(a)) == a
  {
    var q := a / PAGE_SPAN;
    assert DirectoryIndex(a) == q / DIRECTORY_ENTRIES;
  }

  lemma Multiples(d: int, m: int)
    requires m > 0
    ensures d >= 1 ==> d * m >= m
    ensures d <= -1 ==> d * m <= -m
  {
  }

  lemma Divides(a: nat, n: nat, q: nat, r: nat)
    requires r < n && a == q * n + r
    ensures a / n == q && a % n == r
  {
    var d: int, m: int := a / n - q, n;
    assert d * m == (a / n) * m - q * m;
    Multiples(d, m);
  }

  lemma PlaceHasAddress(d: nat, p: nat, b: nat, k: nat)
    requires InRange(d, p, b, k)
    ensures var a := Address(d, p, b, k);
            && Aligned(a) && a < ADDRESS_LIMIT
            && DirectoryIndex(a) == d && PageIndex(a) == p && ByteIndex(a) == b && BitIndex(a) == k
  {
    var a := Address(d, p, b, k);
    var low := b * 64 + k * WORD;
    Divides(a, DIRECTORY_SPAN, d, p * PAGE_SPAN + low);
    Divides(a, PAGE_SPAN, d * DIRECTORY_ENTRIES + p, low);
    Divides(d * DIRECTORY_ENTRIES + p, DIRECTORY_ENTRIES, d, p);
    Divides(low, 64, b, k * WORD);
    Divides(a, WORD, d * (DIRECTORY_SPAN / WORD) + p * (PAGE_SPAN / WORD) + b * 8 + k, 0);
    Divides(a / WORD, 8, d * (DIRECTORY_SPAN / 64) + p * (PAGE_SPAN / 64) + b, k);
  }

  /** The limit is exact: an address from 2^61 on has no root entry. */
  lemma BeyondTheLimit(a: nat)
    ensures DirectoryIndex(a) < 65536 <==> a < 0x2000_0000_0000_0000
  {
  }

  // ----- bits

  function Mask(k: nat): bv8
    requires k < 8
  {
    (1 as bv8) << k
  }

  predicate BitSet(x: bv8, k: nat)
    requires k < 8
  {
    x & Mask(k) != 0
  }

  function WithBit(x: bv8, k: nat): bv8
    requires k < 8
  {
    x | Mask(k)
  }

  function WithoutBit(x: bv8, k: nat): bv8
    requires k < 8
  {
    x & (0xFF ^ Mask(k))
  }

  lemma BitAdded(x: bv8, k: nat, j: nat)
    requires k < 8 && j < 8
    ensures BitSet(WithBit(x, k), j) <==> j == k || BitSet(x, j)
  {
  }

  lemma BitRemoved(x: bv8, k: nat, j: nat)
    requires k < 8 && j < 8
    ensures BitSet(WithoutBit(x, k), j) <==> j != k && BitSet(x, j)
  {
  }

  // ----- the operations on the set of marked addresses

  datatype Op = Put(address: nat, bit: int) | Wipe

  /** The set of addresses whose bit is set, after one operation. */
  function After(marked: set<nat>, op: Op): set<nat> {
    match op
    case Put(a, bit) =>
      if !Aligned(a) then marked else if bit != 0 then marked + {a} else marked - {a}
    case Wipe => {}
  }

  // ----- the pages

  type Page = array<bv8>
  type Page? = array?<bv8>
  type Directory? = array?<Page?>

  ghost predicate Blank(page: Page?)
    reads page
  {
    page != null ==> forall b :: 0 <= b < page.Length ==> page[b] == 0
  }

  class Map {
    var mapPages: array<Directory?>
    /** The addresses whose bit is set. */
    ghost var marked: set<nat>
    ghost var Repr: set<object>

    /** The arrays have their sizes, and no directory or page is shared. */
    ghost predicate Shape()
      reads this, Repr
    {
      && this in Repr && mapPages in Repr && mapPages.Length == ROOT_PAGES
      && (forall d :: 0 <= d < ROOT_PAGES && mapPages[d] != null ==>
            mapPages[d] in Repr && mapPages[d].Length == DIRECTORY_ENTRIES)
      && (forall d, d' :: 0 <= d < d' < ROOT_PAGES && mapPages[d] != null ==> mapPages[d] != mapPages[d'])
      && (forall d, p :: 0 <= d < ROOT_PAGES && 0 <= p < DIRECTORY_ENTRIES && mapPages[d] != null && mapPages[d][p] != null ==>
            mapPages[d][p] in Repr && mapPages[d][p].Length == PAGE_SIZE)
      && (forall d, p, d', p' ::
            (0 <= d < ROOT_PAGES && 0 <= p < DIRECTORY_ENTRIES && mapPages[d] != null && mapPages[d][p] != null &&
             0 <= d' < ROOT_PAGES && 0 <= p' < DIRECTORY_ENTRIES && mapPages[d'] != null && (d != d' || p != p'))
            ==> mapPages[d][p] != mapPages[d'][p'])
    }

    /** Bit `k` of byte `b` of page `p` of directory `d`. */
    ghost predicate Lit(d: nat, p: nat, b: nat, k: nat)
      requires Shape() && InRange(d, p, b, k)
      reads this, Repr
    {
      mapPages[d] != null && mapPages[d][p] != null && BitSet(mapPages[d][p][b], k)
    }

    ghost predicate Valid()
      reads this, Repr
    {
      && Shape()
      && (forall a :: a in marked ==> Aligned(a) && a < ADDRESS_LIMIT)
      && (forall d, p, b, k :: InRange(d, p, b, k) ==> (Lit(d, p, b, k) <==> Address(d, p, b, k) in marked))
    }

    constructor ()
      ensures Valid() && fresh(Repr) && marked == {}
    {
      mapPages := new Directory?[ROOT_PAGES](_ => null);
      marked := {};
      new;
      Repr := {this, mapPages};
    }

    /** Answers whether the address is aligned and, if it is, the byte masked to its bit. */
    method AtWord(address: nat) returns (ok: bool, bits: bv8)
      requires Valid() && address < ADDRESS_LIMIT
      ensures ok <==> Aligned(address)
      ensures ok ==> (bits != 0 <==> address in marked)
    {
      bits := 0;
      if address % WORD != 0 {
        return false, 0;
      }
      ok := true;
      AddressHasPlace(address);
      var d, p, b, k := DirectoryIndex(address), PageIndex(address), ByteIndex(address), BitIndex(address);
      assert Lit(d, p, b, k) <==> address in marked;
      var directory := mapPages[d];
      if directory == null {
        return;
      }
      var page := directory[p];
      bits := if page == null then 0 else page[b] & Mask(k);
    }

    /** Sets the bit of an address, or clears it if `bit` is 0; no other word is affected. */
    method AtWordPut(address: nat, bit: int) returns (ok: bool)
      requires Valid() && address < ADDRESS_LIMIT
      modifies Repr
      ensures Valid() && fresh(Repr - old(Repr))
      ensures ok <==> Aligned(address)
      ensures marked == After(old(marked), Put(address, bit))
    {
      if address % WORD != 0 {
        return false;
      }
      ok := true;
      AddressHasPlace(address);
      var d, p, b, k := DirectoryIndex(address), PageIndex(address), ByteIndex(address), BitIndex(address);
      NeedDirectory(d);
      NeedPage(d, p);
      SetBit(d, p, b, k, bit);
    }

    method NeedDirectory(d: nat)
      requires Valid() && d < ROOT_PAGES
      modifies this`Repr, mapPages
      ensures Valid() && fresh(Repr - old(Repr)) && old(Repr) <= Repr && marked == old(marked) && mapPages == old(mapPages)
      ensures mapPages[d] != null
    {
      if mapPages[d] == null {
        var directory := new Page?[DIRECTORY_ENTRIES](_ => null);
        mapPages[d] := directory;
        Repr := Repr + {directory};
        forall d', p, b, k | InRange(d', p, b, k) ensures Lit(d', p, b, k) <==> old(Lit(d', p, b, k)) {
        }
      }
    }

    method NeedPage(d: nat, p: nat)
      requires Valid() && d < ROOT_PAGES && p < DIRECTORY_ENTRIES && mapPages[d] != null
      modifies this`Repr, mapPages[d]
      ensures Valid() && fresh(Repr - old(Repr)) && old(Repr) <= Repr && marked == old(marked) && mapPages == old(mapPages)
      ensures mapPages[d] == old(mapPages[d]) && mapPages[d][p] != null
    {
      var directory := mapPages[d];
      if directory[p] == null {
        var page := new bv8[PAGE_SIZE](_ => 0);
        directory[p] := page;
        Repr := Repr + {page};
        forall d', p', b, k | InRange(d', p', b, k) ensures Lit(d', p', b, k) <==> old(Lit(d', p', b, k)) {
        }
      }
    }

    method SetBit(d: nat, p: nat, b: nat, k: nat, bit: int)
      requires Valid() && InRange(d, p, b, k) && mapPages[d] != null && mapPages[d][p] != null
      modifies this`marked, mapPages[d][p]
      ensures Valid()
      ensures marked == if bit != 0 then old(marked) + {Address(d, p, b, k)} else old(marked) - {Address(d, p, b, k)}
    {
      var page := mapPages[d][p];
      ghost var before := page[b];
      if bit != 0 {
        page[b] := WithBit(page[b], k);
        marked := marked + {Address(d, p, b, k)};
      } else {
        page[b] := WithoutBit(page[b], k);
        marked := marked - {Address(d, p, b, k)};
      }
      PlaceHasAddress(d, p, b, k);
      forall d': nat, p': nat, b': nat, k': nat | InRange(d', p', b', k')
        ensures Lit(d', p', b', k') <==> Address(d', p', b', k') in marked
      {
        PlaceHasAddress(d', p', b', k');
        assert old(Lit(d', p', b', k')) <==> Address(d', p', b', k') in old(marked);
        if d' == d && p' == p {
          BitAdded(before, k, k');
          BitRemoved(before, k, k');
        } else {
          assert old(mapPages[d'] != null) ==> old(mapPages[d'][p']) != page;
        }
      }
    }

    /** Clears every page; the pages stay allocated. */
    method Clear()
      requires Valid()
      modifies Repr
      ensures Valid() && Repr == old(Repr) && marked == After(old(marked), Wipe)
    {
      var i := 0;
      while i < ROOT_PAGES
        invariant 0 <= i <= ROOT_PAGES && Shape() && Repr == old(Repr) && mapPages == old(mapPages)
        invariant forall d, p :: 0 <= d < i && 0 <= p < DIRECTORY_ENTRIES && mapPages[d] != null ==> Blank(mapPages[d][p])
      {
        if mapPages[i] != null {
          ClearDirectory(i);
        }
        i := i + 1;
      }
      marked := {};
      forall d: nat, p: nat, b: nat, k: nat | InRange(d, p, b, k) ensures !Lit(d, p, b, k) {
        assert mapPages[d] != null ==> Blank(mapPages[d][p]);
      }
    }

    method ClearDirectory(d: nat)
      requires Shape() && d < ROOT_PAGES && mapPages[d] != null
      modifies Repr - {this, mapPages, mapPages[d]}
      ensures Shape() && forall p :: 0 <= p < DIRECTORY_ENTRIES ==> Blank(mapPages[d][p])
      ensures forall d', p :: 0 <= d' < ROOT_PAGES && d' != d && 0 <= p < DIRECTORY_ENTRIES && mapPages[d'] != null ==>
                mapPages[d'][p] == old(mapPages[d'][p]) && (old(Blank(mapPages[d'][p])) ==> Blank(mapPages[d'][p]))
    {
      var directory := mapPages[d];
      var j := 0;
      while j < DIRECTORY_ENTRIES
        invariant 0 <= j <= DIRECTORY_ENTRIES && Shape()
        invariant forall p :: 0 <= p < j ==> Blank(directory[p])
        invariant forall d', p :: 0 <= d' < ROOT_PAGES && d' != d && 0 <= p < DIRECTORY_ENTRIES && mapPages[d'] != null ==>
                    mapPages[d'][p] == old(mapPages[d'][p]) && (old(Blank(mapPages[d'][p])) ==> Blank(mapPages[d'][p]))
      {
        var page := directory[j];
        if page != null {
          forall b | 0 <= b < page.Length {
            page[b] := 0;
          }
        }
        j := j + 1;
      }
    }
  }

  // ----- sequences of operations

  function Replay(marked: set<nat>, ops: seq<Op>): set<nat>
    decreases |ops|
  {
    if ops == [] then marked else Replay(After(marked, ops[0]), ops[1..])
  }

  lemma {:induction false} ReplayAppend(marked: set<nat>, a: seq<Op>, b: seq<Op>)
    ensures Replay(marked, a + b) == Replay(Replay(marked, a), b)
    decreases |a|
  {
    if a == [] {
      assert a + b == b;
    } else {
      assert (a + b)[0] == a[0] && (a + b)[1..] == a[1..] + b;
      ReplayAppend(After(marked, a[0]), a[1..], b);
    }
  }

  predicate Touches(op: Op, a: nat) {
    op.Wipe? || op.address == a
  }

  /** An address is marked exactly when the last operation that touched it, if any, was a put
      of a non-zero bit. */
  lemma {:induction false} LastOperationDecides(marked: set<nat>, ops: seq<Op>, a: nat)
    requires Aligned(a)
    ensures a in Replay(marked, ops) <==>
              if exists k :: 0 <= k < |ops| && Touches(ops[k], a)
              then exists k :: 0 <= k < |ops| && Touches(ops[k], a) && ops[k].Put? && ops[k].bit != 0 &&
                     forall j :: k < j < |ops| ==> !Touches(ops[j], a)
              else a in marked
    decreases |ops|
  {
    if ops != [] {
      var last, rest := ops[|ops| - 1], ops[..|ops| - 1];
      assert ops == rest + [last];
      ReplayAppend(marked, rest, [last]);
      assert Replay(Replay(marked, rest), [last]) == After(Replay(marked, rest), last);
      if Touches(last, a) {
      } else {
        LastOperationDecides(marked, rest, a);
        if k :| 0 <= k < |ops| && Touches(ops[k], a) { assert rest[k] == ops[k]; }
        assert forall k :: 0 <= k < |rest| ==> rest[k] == ops[k];
      }
    }
  }

  /** A misaligned address is never marked, whatever is put. */
  lemma {:induction false} MisalignedIsNeverMarked(marked: set<nat>, ops: seq<Op>, a: nat)
    requires !Aligned(a) && a !in marked
    ensures a !in Replay(marked, ops)
    decreases |ops|
  {
    if ops != [] {
      MisalignedIsNeverMarked(After(marked, ops[0]), ops[1..], a);
    }
  }

  function Elements(s: seq<nat>): set<nat> {
    set a | a in s
  }

  function Puts(addresses: seq<nat>, bit: int): seq<Op> {
    seq(|addresses|, i requires 0 <= i < |addresses| => Put(addresses[i], bit))
  }

  lemma {:induction false} PutsReplay(marked: set<nat>, addresses: seq<nat>, bit: int)
    requires forall a :: a in addresses ==> Aligned(a)
    ensures Replay(marked, Puts(addresses, bit))
         == if bit != 0 then marked + Elements(addresses) else marked - Elements(addresses)
    decreases |addresses|
  {
    if addresses == [] {
    } else {
      var a, rest := addresses[0], addresses[1..];
      assert Puts(addresses, bit)[1..] == Puts(rest, bit);
      PutsReplay(After(marked, Put(a, bit)), rest, bit);
      assert Elements(addresses) == {a} + Elements(rest);
    }
  }

  /** The leak check: wipe the map, mark every header, clear every header that is referenced;
      what is left are exactly the unreferenced headers. */
  lemma LeakCheck(marked: set<nat>, headers: seq<nat>, referenced: seq<nat>)
    requires forall a :: a in headers ==> Aligned(a)
    requires forall a :: a in referenced ==> Aligned(a)
    ensures Replay(marked, [Wipe] + Puts(headers, 1) + Puts(referenced, 0))
         == Elements(headers) - Elements(referenced)
  {
    var h, r := Elements(headers), Elements(referenced);
    ReplayAppend(marked, [Wipe] + Puts(headers, 1), Puts(referenced, 0));
    ReplayAppend(marked, [Wipe], Puts(headers, 1));
    assert Replay(marked, [Wipe]) == {};
    PutsReplay({}, headers, 1);
    PutsReplay(h, referenced, 0);
    assert {} + h == h;
  }

  // ----- the layout for 32-bit images: 256 pages reached by shift 24, no directories

  const PAGES_32: nat := 256
  const PAGE_SIZE_32: nat := 0x10_0000
  const PAGE_SPAN_32: nat := 0x100_0000

  function PageIndex32(a: nat): nat { a / PAGE_SPAN_32 }
  function ByteIndex32(a: nat): nat { (a % PAGE_SPAN_32) / 32 }
  function BitIndex32(a: nat): nat { (a / 4) % 8 }

  lemma LowPart32(low: nat)
    requires low % 4 == 0
    ensures low == low / 32 * 32 + (low / 4) % 8 * 4
  {
    assert low / 32 == low / 4 / 8;
  }

  lemma SameBit32(a: nat)
    ensures (a / 4) % 8 == (a % PAGE_SPAN_32 / 4) % 8
  {
    var q, low := a / PAGE_SPAN_32, a % PAGE_SPAN_32;
    assert a / 4 == q * 0x40_0000 + low / 4;
  }

  lemma AddressHasPlace32(a: nat)
    requires a % 4 == 0 && a < 0x1_0000_0000
    ensures PageIndex32(a) < 256 && ByteIndex32(a) < 1048576 && BitIndex32(a) < 8
    ensures a == PageIndex32(a) * PAGE_SPAN_32 + ByteIndex32(a) * 32 + BitIndex32(a) * 4
  {
    SameBit32(a);
    LowPart32(a % PAGE_SPAN_32);
  }

  /** Every aligned 32-bit address has its place in bounds, and no two share one. */
  lemma PlacesAreDistinct32(a: nat, b: nat)
    requires a % 4 == 0 && b % 4 == 0 && a < 0x1_0000_0000 && b < 0x1_0000_0000
    ensures PageIndex32(a) < 256 && ByteIndex32(a) < 1048576 && BitIndex32(a) < 8
    ensures (PageIndex32(a) == PageIndex32(b) && ByteIndex32(a) == ByteIndex32(b) && BitIndex32(a) == BitIndex32(b))
              ==> a == b
  {
    AddressHasPlace32(a);
    AddressHasPlace32(b);
  }

  lemma PlacesAreDistinct(a: nat, b: nat)
    requires Aligned(a) && Aligned(b) && a < ADDRESS_LIMIT && b < ADDRESS_LIMIT && a != b
    ensures (DirectoryIndex(a), PageIndex(a), ByteIndex(a), BitIndex(a))
         != (DirectoryIndex(b), PageIndex(b), ByteIndex(b), BitIndex(b))
  {
    AddressHasPlace(a);
    AddressHasPlace(b);
  }
}
