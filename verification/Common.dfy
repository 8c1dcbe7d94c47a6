/** Small vocabulary shared by the other modules. */
module Common {

  datatype Option<+T> = None | Some(value: T)

  function Max(a: nat, b: nat): nat {
    if a < b then b else a
  }

  const WORD: nat := 0x1_0000_0000  // number of values of a 32-bit unsigned integer

  type Byte = b: nat | b < 256
}

/** First-fit search, used for page frames (pmm.c) and for virtual pages (vmm.c). */
module FirstFit {
  import opened Common

  ghost predicate IsRun(free: seq<bool>, i: nat, n: nat) {
    i + n <= |free| && forall k :: i <= k < i + n ==> free[k]
  }

  /** The start of the lowest run of n free positions, searched from position i on. */
  ghost function FirstRunFrom(free: seq<bool>, i: nat, n: nat): (r: Option<nat>)
    ensures r.Some? ==> i <= r.value && IsRun(free, r.value, n)
    ensures r.Some? ==> forall j :: i <= j < r.value ==> !IsRun(free, j, n)
    ensures r.None? ==> forall j :: i <= j ==> !IsRun(free, j, n)
    decreases |free| - i
  {
    if i + n > |free| then None
    else if IsRun(free, i, n) then Some(i)
    else if i == |free| then None
    else FirstRunFrom(free, i + 1, n)
  }

  /** The start of the lowest run of n free positions, or None exactly when there is none. */
  ghost function FirstRun(free: seq<bool>, n: nat): (r: Option<nat>)
    ensures r.Some? ==> IsRun(free, r.value, n)
    ensures r.Some? ==> forall j :: 0 <= j < r.value ==> !IsRun(free, j, n)
    ensures r.None? ==> forall j: nat :: !IsRun(free, j, n)
  {
    FirstRunFrom(free, 0, n)
  }

  /**
   The state of a linear search that has passed position i with the last count
   positions free: no run of n free positions ends at or before i.
   */
  ghost predicate Scanned(free: seq<bool>, i: nat, n: nat, count: nat) {
    && count <= i <= |free| && count < n
    && (forall k :: i - count <= k < i ==> free[k])
    && (count < i ==> !free[i - count - 1])
    && (forall j: nat :: j + n <= i ==> !IsRun(free, j, n))
  }

  lemma ScanStart(free: seq<bool>, n: nat)
    requires n > 0
    ensures Scanned(free, 0, n, 0)
  {
  }

  /** One step of the search: it either goes on or has found the first run. */
  lemma ScanStep(free: seq<bool>, i: nat, n: nat, count: nat)
    requires Scanned(free, i, n, count) && i < |free|
    ensures !free[i] ==> Scanned(free, i + 1, n, 0)
    ensures free[i] && count + 1 < n ==> Scanned(free, i + 1, n, count + 1)
    ensures free[i] && count + 1 >= n ==> FirstRun(free, n) == Some(i - count)
  {
    forall j: nat | j + n == i + 1 && (!free[i] || count + 1 < n)
      ensures !IsRun(free, j, n)
    {
      assert if free[i] then !free[i - count - 1] && j <= i - count - 1 < j + n else j <= i < j + n;
    }
    if free[i] && count + 1 >= n {
      assert IsRun(free, i - count, n);
    }
  }

  lemma ScanEnd(free: seq<bool>, n: nat, count: nat)
    requires Scanned(free, |free|, n, count)
    ensures FirstRun(free, n).None?
  {
  }
}
