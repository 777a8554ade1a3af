/** The window test as the handlers evaluate it on Go's `int`, where
    `(page-1)*50` and `page*50` wrap around (gopagination.go:118 and 186).
    Go's `int` is 32 or 64 bits wide depending on the target architecture,
    and the source pins neither, so both widths are modelled. The rest of
    the model uses the exact window of module Window; this module shows
    where the two part ways. */
module Overflow {
  import opened Window

  /** The width of Go's `int` on the target the service is built for. */
  datatype Target = Int32 | Int64

  /** 2^(w-1) for a w-bit `int`: the bound of its signed range. */
  function Half(t: Target): (h: int)
    ensures h > 0
  {
    match t
    case Int32 => 0x8000_0000
    case Int64 => 0x8000_0000_0000_0000
  }

  predicate IsInt(t: Target, x: int) {
    -Half(t) <= x < Half(t)
  }

  /** Two's-complement wrap-around of a signed result on the target. */
  function Wrap(t: Target, x: int): (r: int)
    ensures IsInt(t, r)
    ensures IsInt(t, x) ==> r == x
    ensures (x - r) % (2 * Half(t)) == 0
  {
    (x + Half(t)) % (2 * Half(t)) - Half(t)
  }

  /** strconv.Atoi on a well-formed but out-of-range number: the value is
      clamped to the nearest end of the target's `int` range. */
  function Clamp(t: Target, x: int): (r: int)
    ensures IsInt(t, r)
    ensures IsInt(t, x) ==> r == x
    ensures x < -Half(t) ==> r == -Half(t)
    ensures x >= Half(t) ==> r == Half(t) - 1
  {
    if x < -Half(t) then -Half(t) else if x >= Half(t) then Half(t) - 1 else x
  }

  /** The window test as written: each subtraction and product wraps. */
  predicate InWindowAsWritten(t: Target, page: int, k: int)
    requires IsInt(t, page)
  {
    Wrap(t, Wrap(t, page - 1) * PageSize) < k < Wrap(t, page * PageSize)
  }

  /** While no product overflows, the code's window is the exact one. */
  lemma AgreesWithoutOverflow(t: Target, page: int, k: int)
    requires IsInt(t, page) && IsInt(t, page - 1)
    requires IsInt(t, (page - 1) * PageSize) && IsInt(t, page * PageSize)
    ensures InWindowAsWritten(t, page, k) <==> InWindow(page, k)
  {
  }

  /** The negative page 1 - 2^(w-1) is not normalised, yet its products wrap
      to 0 and 50, so it shows exactly page 1 instead of nothing. */
  lemma NegativePageAliasesPageOne(t: Target, k: int)
    ensures IsInt(t, 1 - Half(t)) && NormalizePage(1 - Half(t)) < 0
    ensures InWindowAsWritten(t, 1 - Half(t), k) <==> InWindow(1, k)
    ensures 0 <= k ==> !InWindow(NormalizePage(1 - Half(t)), k)
  {
    var h := Half(t);
    assert Wrap(t, Wrap(t, 1 - h - 1) * PageSize) == 0;
    assert Wrap(t, (1 - h) * PageSize) == PageSize;
  }

  /** On a 64-bit target, page 7378697629483820647 has the window (-20, 30)
      as written, so it shows row 0, which the exact window puts on no page. */
  lemma HugePageShowsRowZero()
    ensures IsInt(Int64, 7378697629483820647)
    ensures InWindowAsWritten(Int64, 7378697629483820647, 0)
    ensures forall p :: !InWindow(p, 0)
  {
    assert Wrap(Int64, Wrap(Int64, 7378697629483820647 - 1) * PageSize) == -20;
    assert Wrap(Int64, 7378697629483820647 * PageSize) == 30;
  }

  /** strconv.Atoi clamps an out-of-range parameter to 2^(w-1)-1 or -2^(w-1).
      Both select no row: as written their windows are (-100, -50) and
      (-50, 0), and the exact windows lie beyond any index or below zero. */
  lemma ClampedPagesSelectNothing(t: Target, k: int)
    requires 0 <= k
    ensures IsInt(t, Half(t) - 1) && IsInt(t, -Half(t))
    ensures !InWindowAsWritten(t, Half(t) - 1, k) && !InWindowAsWritten(t, -Half(t), k)
    ensures k < Half(t) ==> !InWindow(Half(t) - 1, k)
    ensures !InWindow(NormalizePage(-Half(t)), k)
  {
    var h := Half(t);
    assert Wrap(t, Wrap(t, h - 1 - 1) * PageSize) == -100;
    assert Wrap(t, (h - 1) * PageSize) == -50;
    assert Wrap(t, Wrap(t, -h - 1) * PageSize) == -50;
    assert Wrap(t, -h * PageSize) == 0;
  }

  /** On a 32-bit target the two parameters that misbehave on a 64-bit one
      are out of range: Atoi clamps them to -2^31 and 2^31-1, which show no
      row, while page 1 - 2^31 shows page 1 instead. */
  lemma ThirtyTwoBitTarget(k: int)
    requires 0 <= k
    ensures Clamp(Int32, -9223372036854775807) == -Half(Int32)
    ensures Clamp(Int32, 7378697629483820647) == Half(Int32) - 1
    ensures !InWindowAsWritten(Int32, Clamp(Int32, -9223372036854775807), k)
    ensures !InWindowAsWritten(Int32, Clamp(Int32, 7378697629483820647), k)
    ensures InWindowAsWritten(Int32, 1 - 0x8000_0000, k) <==> InWindow(1, k)
  {
    ClampedPagesSelectNothing(Int32, k);
    NegativePageAliasesPageOne(Int32, k);
  }
}
