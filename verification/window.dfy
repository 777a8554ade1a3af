/** Page numbers and the page window shared by both handlers
    (gopagination.go:112-118 and 161-163, 186). */
module Window {

  /** The page stride both handlers multiply the page number by. */
  const PageSize: int := 50

  /** Only page 0 (also what strconv.Atoi yields on a syntax error) becomes page 1;
      every other value, negative ones included, is kept. */
  function NormalizePage(page: int): (p: int)
    ensures p != 0
    ensures page != 0 ==> p == page
    ensures page == 0 ==> p == 1
  {
    if page == 0 then 1 else page
  }

  /** The window test both handlers apply: strict on both sides. */
  predicate InWindow(p: int, k: int) {
    (p - 1) * PageSize < k < p * PageSize
  }

  /** Element k (zero-based) of a sequence is on page p when its number
      counted from `base` lies in the window: the unfiltered handler tests
      the zero-based index itself (base 0), the filtered one the 1-based
      match rank (base 1). */
  predicate OnPage(p: int, base: nat, k: int) {
    InWindow(p, k + base)
  }

  ghost predicate Increasing(s: seq<nat>) {
    forall i, j :: 0 <= i < j < |s| ==> s[i] < s[j]
  }

  /** First position a page can hold. */
  function Lo(p: int, base: nat): (first: nat) {
    var lo := (p - 1) * PageSize + 1 - base;
    if lo < 0 then 0 else lo
  }

  /** One past the last position of a page among n elements. */
  function Hi(p: int, n: nat, base: nat): (hi: nat)
    ensures Lo(p, base) <= hi
  {
    var top := if n < p * PageSize - base then n else p * PageSize - base;
    if top < Lo(p, base) then Lo(p, base) else top
  }

  /** The positions among n elements that page p holds, in increasing
      order, given in closed form as one contiguous run. */
  function Positions(p: int, n: nat, base: nat): (r: seq<nat>)
    ensures Increasing(r)
    ensures forall i :: 0 <= i < |r| ==> r[i] < n && OnPage(p, base, r[i])
    ensures forall k :: 0 <= k < n && OnPage(p, base, k) ==> k in r
    ensures |r| < PageSize
  {
    var lo := Lo(p, base);
    var r := seq(Hi(p, n, base) - lo, i requires 0 <= i < Hi(p, n, base) - lo => lo + i);
    assert forall k | 0 <= k < n && OnPage(p, base, k) :: r[k - lo] == k;
    r
  }

  /** Scanning one more element appends it exactly when it is on the page. */
  lemma PositionsStep(p: int, n: nat, base: nat)
    ensures Positions(p, n + 1, base)
         == Positions(p, n, base) + (if OnPage(p, base, n) then [n] else [])
  {
    var a, b := Positions(p, n, base), Positions(p, n + 1, base);
    if OnPage(p, base, n) {
      assert Hi(p, n + 1, base) == Hi(p, n, base) + 1;
      assert b == a + [n];
    } else {
      assert Hi(p, n + 1, base) == Hi(p, n, base);
      assert b == a;
    }
  }

  /** Two different pages never share a window position. */
  lemma WindowsDisjoint(p: int, q: int, k: int)
    requires p != q
    ensures !(InWindow(p, k) && InWindow(q, k))
  {
  }

  /** A window position is never a multiple of the page size. */
  lemma WindowSkipsMultiples(p: int, k: int)
    requires InWindow(p, k)
    ensures k % PageSize != 0
  {
  }
}
