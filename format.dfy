/**
 * `format_size` (myrclone7calisiyor.py:112-119): the tool's raw byte count
 * shown in the largest unit that keeps the number under 1024.
 */
module Format {

  import opened Wrappers
  import opened Strings

  /** The units tried in order; past the last one the size is shown in TB. */
  const UNITS: seq<string> := ["B", "KB", "MB", "GB"]

  /** The size after `j` rounds of `size //= 1024` (for a positive divisor
      Dafny's `/` is Python's floor division). */
  function Shrink(v: int, j: nat): int {
    if j == 0 then v else Shrink(v, j - 1) / 1024
  }

  /** The round at which the loop stops: the first round whose size is
      below 1024, or 4 (TB) when every unit up to GB was too small. */
  function ScaleIndex(v: int): (k: nat)
    ensures k <= 4
    ensures forall j :: 0 <= j < k ==> Shrink(v, j) >= 1024
    ensures k < 4 ==> Shrink(v, k) < 1024
  {
    ScaleFrom(v, 0)
  }

  function ScaleFrom(v: int, j: nat): (k: nat)
    requires j <= 4
    requires forall i :: 0 <= i < j ==> Shrink(v, i) >= 1024
    ensures j <= k <= 4
    ensures forall i :: 0 <= i < k ==> Shrink(v, i) >= 1024
    ensures k < 4 ==> Shrink(v, k) < 1024
    decreases 4 - j
  {
    if j == 4 || Shrink(v, j) < 1024 then j else ScaleFrom(v, j + 1)
  }

  function UnitName(k: nat): string
    requires k <= 4
  {
    if k < 4 then UNITS[k] else "TB"
  }

  /** `format_size(size_str)`: a string Python's `int()` rejects comes back
      unchanged; otherwise the value is shown by `FormatValue`. */
  method FormatSize(s: string) returns (r: string)
    ensures ParseInt(s).None? ==> r == s
    ensures ParseInt(s).Some? ==>
      var v := ParseInt(s).value;
      r == IntToString(Shrink(v, ScaleIndex(v))) + " " + UnitName(ScaleIndex(v))
  {
    var parsed := ParseInt(s);
    if parsed.None? {
      return s;
    }
    r := FormatValue(parsed.value);
  }

  /** The loop of `format_size`: the value is divided by 1024 until it is
      below 1024 or the units run out, and printed with its unit. */
  method FormatValue(v: int) returns (r: string)
    ensures r == IntToString(Shrink(v, ScaleIndex(v))) + " " + UnitName(ScaleIndex(v))
  {
    var size := v;
    for i := 0 to |UNITS|
      invariant size == Shrink(v, i)
      invariant forall j :: 0 <= j < i ==> Shrink(v, j) >= 1024
    {
      if size < 1024 {
        ScaleIndexUnique(v, i);
        return IntToString(size) + " " + UNITS[i];
      }
      size := size / 1024;
    }
    ScaleIndexUnique(v, 4);
    return IntToString(size) + " TB";
  }

  /** The loop's stopping round is determined: the first round below 1024. */
  lemma ScaleIndexUnique(v: int, i: nat)
    requires i <= 4
    requires forall j :: 0 <= j < i ==> Shrink(v, j) >= 1024
    requires i < 4 ==> Shrink(v, i) < 1024
    ensures ScaleIndex(v) == i
  {
  }

  function Pow1024(k: nat): (p: nat)
    ensures p >= 1
  {
    if k == 0 then 1 else 1024 * Pow1024(k - 1)
  }

  lemma FloorDivAtLeast(x: int, m: int)
    requires m >= 1
    ensures x / 1024 >= m <==> x >= 1024 * m
  {
  }

  /** For a non-negative size, `j` rounds of division leave at least `m`
      exactly when the size is at least `m` times 1024^j. */
  lemma {:induction false} ShrinkAtLeast(v: int, j: nat, m: int)
    requires v >= 0 && m >= 1
    ensures Shrink(v, j) >= m <==> v >= Pow1024(j) * m
  {
    if j > 0 {
      FloorDivAtLeast(Shrink(v, j - 1), m);
      ShrinkAtLeast(v, j - 1, 1024 * m);
      assert Pow1024(j - 1) * (1024 * m) == Pow1024(j) * m;
    }
  }

  /** The unit chosen for a non-negative size is the largest power of 1024
      not above it: B below 1 KiB, KB from 1 KiB to below 1 MiB, and so on,
      with TB for everything from 1 TiB up. */
  lemma UnitMatchesMagnitude(v: int)
    requires v >= 0
    ensures var k := ScaleIndex(v);
      (k > 0 ==> v >= Pow1024(k)) && (k < 4 ==> v < Pow1024(k + 1))
  {
    var k := ScaleIndex(v);
    if k > 0 {
      ShrinkAtLeast(v, k - 1, 1024);
    }
    if k < 4 {
      ShrinkAtLeast(v, k, 1024);
    }
  }

  /** A negative size is below 1024 at once and is shown in bytes. */
  lemma NegativeInBytes(v: int)
    requires v < 0
    ensures ScaleIndex(v) == 0
  {
  }
}
