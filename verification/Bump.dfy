/** The placement allocator that kmalloc_int uses before the heap exists. */
module Bump {
  import opened Machine

  const PAGE: int := 0x1000

  /** Where a request is placed. Addresses of the first page are not aligned. */
  function Place(placement: int, align: bool): int {
    if align && placement >= PAGE then placement - placement % PAGE + PAGE else placement
  }

  datatype Request = Request(size: nat, align: bool)

  /** The placement address after a request, computed without wrapping. */
  function After(placement: int, r: Request): int {
    Place(placement, r.align) + r.size
  }

  function AfterAll(placement: int, rs: seq<Request>): int
    decreases |rs|
  {
    if rs == [] then placement else AfterAll(After(placement, rs[0]), rs[1..])
  }

  /** The address that the k-th of a sequence of requests gets. */
  function AddressOf(placement: int, rs: seq<Request>, k: nat): int
    requires k < |rs|
  {
    Place(AfterAll(placement, rs[..k]), rs[k].align)
  }

  /** The static variable placement_address. */
  class Placement {
    var address: int

    constructor (start: int)
      ensures address == start
    {
      address := start;
    }

    /** kmalloc_int while there is no heap; phys gets the same address. */
    method Kmalloc(size: int, align: bool) returns (a: int)
      requires 0 <= address < TWO32 && 0 <= size < TWO32
      modifies this
      ensures a == Wrap(Place(old(address), align)) && address == Wrap(a + size)
      ensures var r := Request(size, align);
        After(old(address), r) < TWO32 ==> a == Place(old(address), align) && address == After(old(address), r)
      ensures var at := if align && old(address) >= 0x1000
                        then old(address) / 0x1000 * 0x1000 + 0x1000 else old(address);
        at + size < 0x1_0000_0000 ==> a == at && address == at + size
    {
      PlaceInNumbers(address, align);
      hide Place;
      if align && address / PAGE != 0 {
        address := address - address % PAGE;
        address := Wrap(address + PAGE);
      }
      a := address;
      address := Wrap(address + size);
    }
  }

  lemma PlaceInNumbers(at: int, align: bool)
    requires 0 <= at
    ensures Place(at, align) == if align && at >= 0x1000 then at / 0x1000 * 0x1000 + 0x1000 else at
    ensures Place(at, align) == if align && at / 0x1000 != 0 then at - at % 0x1000 + 0x1000 else at
  {
  }

  /** The placement address never falls, and an aligned request starts on a page. */
  lemma {:induction false} AfterAllGrows(placement: int, rs: seq<Request>)
    ensures AfterAll(placement, rs) >= placement
    decreases |rs|
  {
    if rs != [] {
      AfterAllGrows(After(placement, rs[0]), rs[1..]);
    }
  }

  lemma {:induction false} AfterSplit(placement: int, rs: seq<Request>, k: nat)
    requires k <= |rs|
    ensures AfterAll(placement, rs) == AfterAll(AfterAll(placement, rs[..k]), rs[k..])
    decreases |rs|
  {
    if k == 0 {
      assert rs[..0] == [] && rs[0..] == rs;
    } else {
      assert rs[..k][0] == rs[0] && rs[..k][1..] == rs[1..][..k - 1] && rs[1..][k - 1..] == rs[k..];
      AfterSplit(After(placement, rs[0]), rs[1..], k - 1);
    }
  }

  /** Regions given out by a run of requests from the second page on do not overlap and ascend. */
  lemma RegionsAscend(placement: int, rs: seq<Request>, i: nat, j: nat)
    requires PAGE <= placement && i < j < |rs|
    ensures placement <= AddressOf(placement, rs, i)
    ensures AddressOf(placement, rs, i) + rs[i].size <= AddressOf(placement, rs, j)
    ensures AddressOf(placement, rs, j) + rs[j].size <= AfterAll(placement, rs)
    ensures rs[i].align ==> AddressOf(placement, rs, i) % PAGE == 0
  {
    AfterAllGrows(placement, rs[..i]);
    Advance(placement, rs, i);
    AfterSplit(placement, rs[..j], i + 1);
    assert rs[..j][..i + 1] == rs[..i + 1];
    AfterAllGrows(AfterAll(placement, rs[..i + 1]), rs[..j][i + 1..]);
    Advance(placement, rs, j);
    AfterSplit(placement, rs, j + 1);
    AfterAllGrows(AfterAll(placement, rs[..j + 1]), rs[j + 1..]);
    Aligned(AfterAll(placement, rs[..i]));
  }

  /** The mask test of the source leaves addresses inside the first page unaligned. */
  lemma Aligned(p: int)
    requires p >= 0
    ensures Place(p, true) % PAGE == 0 <==> p >= PAGE || p == 0
  {
  }

  /** The request at k takes the placement address from where the first k left it to where k + 1 leave it. */
  lemma Advance(placement: int, rs: seq<Request>, k: nat)
    requires k < |rs|
    ensures AfterAll(placement, rs[..k + 1]) == AddressOf(placement, rs, k) + rs[k].size
  {
    AfterSplit(placement, rs[..k + 1], k);
    assert rs[..k + 1][..k] == rs[..k] && rs[..k + 1][k..] == [rs[k]];
    assert [rs[k]][1..] == [];
  }
}
