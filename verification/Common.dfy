/** Values shared by every component of the kernel policy layer. */
module Common {

  datatype Option<+T> = None | Some(value: T)

  datatype Result<+T, +E> = Ok(value: T) | Err(error: E)

  datatype Unit = Unit

  const PAGE_SIZE: nat := 4096

  type Byte = b: int | 0 <= b < 256

  /** Physical addresses are bounded by the 52 bits a page-table entry can hold. */
  const PHYSICAL_LIMIT: nat := 0x10_0000_0000_0000

  /** End of the lower canonical half, the part of the address space users may see. */
  const USER_LIMIT: nat := 0x8000_0000_0000

  function SaturatingSub(a: nat, b: nat): nat {
    if b <= a then a - b else 0
  }

  predicate FrameShaped(frame: int) {
    0 < frame < PHYSICAL_LIMIT && frame % PAGE_SIZE == 0
  }

  /** `user`, `writable` and `executable` bits of one mapping. */
  datatype MappingFlags = MappingFlags(user: bool, writable: bool, executable: bool) {
    predicate Valid() {
      user && !(writable && executable)
    }
  }

  const CODE := MappingFlags(true, false, true)
  const DATA := MappingFlags(true, true, false)
  const READ_ONLY_DATA := MappingFlags(true, false, false)

  /** One frame of a loaded image and the page it is meant for. */
  datatype LoadedPage = LoadedPage(virtualAddress: nat, frame: nat, flags: MappingFlags)

  /** No element occurs twice. */
  predicate Distinct<T(==)>(s: seq<T>) {
    |s| == 0 || (s[|s| - 1] !in s[..|s| - 1] && Distinct(s[..|s| - 1]))
  }

  lemma {:induction false} DistinctAt<T>(s: seq<T>, i: nat, j: nat)
    requires Distinct(s) && i < j < |s|
    ensures s[i] != s[j]
  {
    var rest := s[..|s| - 1];
    if j == |s| - 1 {
      assert rest[i] == s[i];
    } else {
      DistinctAt(rest, i, j);
    }
  }

  lemma {:induction false} DistinctAppend<T>(s: seq<T>, x: T)
    requires Distinct(s) && x !in s
    ensures Distinct(s + [x])
  {
    assert (s + [x])[..|s|] == s;
  }

  /** Remove a position by moving the last element into it. */
  function SwapRemoved<T>(s: seq<T>, i: nat): seq<T>
    requires i < |s|
  {
    var last := |s| - 1;
    if i == last then s[..last] else s[..last][i := s[last]]
  }

  lemma {:induction false} DistinctFrom<T>(s: seq<T>)
    requires forall i, j :: 0 <= i < j < |s| ==> s[i] != s[j]
    ensures Distinct(s)
  {
    if |s| > 0 {
      DistinctFrom(s[..|s| - 1]);
    }
  }

  lemma {:induction false} SwapRemovedRest<T>(s: seq<T>, i: nat)
    requires i < |s| && Distinct(s)
    ensures Distinct(SwapRemoved(s, i))
    ensures forall x :: x in SwapRemoved(s, i) <==> x in s && x != s[i]
  {
    var last, rest := |s| - 1, SwapRemoved(s, i);
    forall j, k | 0 <= j < k < |s|
      ensures s[j] != s[k]
    {
      DistinctAt(s, j, k);
    }
    DistinctFrom(rest);
    forall x | x in s && x != s[i]
      ensures x in rest
    {
      var j :| 0 <= j < |s| && s[j] == x;
      assert if j == last then rest[i] == x else rest[j] == x;
    }
  }
}
