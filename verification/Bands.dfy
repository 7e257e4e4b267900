/** How the renderer cuts the rows of an image into bands. */
module Bands {

  /** First row of band `i` of `k`; the program's float products are exact here. */
  function BandStart(i: int, height: nat, k: nat): int
    requires k > 0
  {
    i * (height / k)
  }

  /** Row after the last of band `i`; the last band also takes the remainder. */
  function BandEnd(i: int, height: nat, k: nat): int
    requires k > 0
  {
    (i + 1) * (height / k) + if i == k - 1 then height % k else 0
  }

  /** The band that row `j` falls into. */
  function BandOf(j: nat, height: nat, k: nat): (b: nat)
    requires k > 0
    ensures b < k
  {
    var d := height / k;
    if d == 0 || j / d >= k then k - 1 else j / d
  }

  predicate InBand(j: int, i: int, height: nat, k: nat)
    requires k > 0
  {
    BandStart(i, height, k) <= j < BandEnd(i, height, k)
  }

  // ---- Multiplication facts ----

  lemma {:induction false} MulOrder(a: nat, b: nat, d: nat)
    requires a <= b
    ensures a * d <= b * d
    decreases b
  {
    if a < b {
      MulOrder(a, b - 1, d);
      assert b * d == (b - 1) * d + d;
    }
  }

  lemma QuotientBounds(j: nat, d: nat)
    requires d > 0
    ensures (j / d) * d <= j < (j / d + 1) * d
  {
    assert (j / d + 1) * d == (j / d) * d + d;
  }

  /** A row lies in `[i * d, (i + 1) * d)` exactly when `i` is its quotient. */
  lemma QuotientUnique(j: nat, d: nat, i: nat)
    requires d > 0
    ensures i * d <= j < (i + 1) * d <==> i == j / d
  {
    QuotientBounds(j, d);
    if i < j / d { MulOrder(i + 1, j / d, d); }
    if i > j / d { MulOrder(j / d + 1, i, d); }
  }

  lemma HeightSplit(height: nat, k: nat)
    requires k > 0
    ensures height == k * (height / k) + height % k
    ensures k * (height / k) == (k - 1) * (height / k) + height / k
  {
  }

  // ---- The bands tile the rows ----

  lemma LastBand(j: nat, d: nat, k: nat)
    requires d > 0 && k > 0
    ensures (k - 1) * d <= j <==> k - 1 <= j / d
  {
    QuotientBounds(j, d);
    if k - 1 <= j / d { MulOrder(k - 1, j / d, d); } else { MulOrder(j / d + 1, k - 1, d); }
  }

  /** Where the bands other than the last lie, and where the last starts. */
  lemma BandRange(j: nat, i: nat, height: nat, k: nat)
    requires k > 0 && j < height && i < k && height / k > 0
    ensures InBand(j, i, height, k) <==>
              if i == k - 1 then i * (height / k) <= j else i * (height / k) <= j < (i + 1) * (height / k)
  {
    BandsAdjoin(i, height, k);
  }

  /** Every row of the image lies in exactly one band, also with more bands than rows. */
  lemma BandsTile(j: nat, i: nat, height: nat, k: nat)
    requires k > 0 && j < height && i < k
    ensures InBand(j, i, height, k) <==> i == BandOf(j, height, k)
  {
    hide InBand, BandStart, BandEnd;
    var d := height / k;
    if d > 0 {
      BandRange(j, i, height, k);
      if i == k - 1 { LastBand(j, d, k); } else { QuotientUnique(j, d, i); }
    } else {
      EmptyBand(j, i, height, k);
    }
  }

  lemma EmptyBand(j: nat, i: nat, height: nat, k: nat)
    requires k > 0 && j < height && i < k && height / k == 0
    ensures InBand(j, i, height, k) <==> i == k - 1
  {
    EmptyBands(i, height, k);
  }

  lemma EmptyBands(i: nat, height: nat, k: nat)
    requires k > 0 && height / k == 0
    ensures BandStart(i, height, k) == 0 && BandEnd(i, height, k) == if i == k - 1 then height else 0
  {
    HeightSplit(height, k);
  }

  lemma BandInside(i: nat, height: nat, k: nat)
    requires k > 0 && i < k
    ensures 0 <= BandStart(i, height, k) <= BandEnd(i, height, k) <= height
  {
    var d := height / k;
    HeightSplit(height, k);
    MulOrder(i, i + 1, d);
    MulOrder(i + 1, k, d);
  }

  /** The bands have the same number of rows, but for the last, which has the remainder too.
      Consecutive bands meet: each starts where the one before it ends, from row 0 to the end. */
  lemma BandsAdjoin(i: nat, height: nat, k: nat)
    requires k > 0 && i < k
    ensures BandEnd(i, height, k) - BandStart(i, height, k) == height / k + if i == k - 1 then height % k else 0
    ensures i == 0 ==> BandStart(i, height, k) == 0
    ensures i + 1 < k ==> BandEnd(i, height, k) == BandStart(i + 1, height, k)
    ensures i + 1 == k ==> BandEnd(i, height, k) == height
  {
    HeightSplit(height, k);
  }
}
