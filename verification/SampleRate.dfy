/** Choosing a supported capture rate: the search stops at the first distance that grows. */
module SampleRate {
  import opened Words

  /** `abs` of the 32-bit difference, as an unsigned value; so a distance around the circle. */
  function Delta(rate: u32, r: u32): (d: u32)
    ensures d == var gap := Distance(rate, r); if gap <= 0x8000_0000 then gap else U32_SIZE - gap
  {
    var diff := if rate >= r then rate - r else rate - r + U32_SIZE;
    if diff < 0x8000_0000 then diff else U32_SIZE - diff
  }

  function Distance(a: int, b: int): nat { if a < b then b - a else a - b }

  /** Where the search stops: the first entry farther away than the one before it. */
  function Stop(table: seq<u32>, rate: u32, i: nat): (k: nat)
    requires 1 <= i <= |table|
    ensures i <= k <= |table|
    ensures forall j | i <= j < k :: Delta(rate, table[j]) <= Delta(rate, table[j - 1])
    ensures k < |table| ==> Delta(rate, table[k]) > Delta(rate, table[k - 1])
    decreases |table| - i
  {
    if i == |table| || Delta(rate, table[i]) > Delta(rate, table[i - 1]) then i else Stop(table, rate, i + 1)
  }

  function Chosen(table: seq<u32>, rate: u32): u32
    requires table != []
  {
    table[Stop(table, rate, 1) - 1]
  }

  /** `getInputSampleRate`, for any table. */
  method GetInputSampleRate(table: seq<u32>, rate: u32) returns (chosen: u32)
    requires table != []
    ensures chosen == Chosen(table, rate)
  {
    var i, prevDelta: u32 := 0, 0xFFFF_FFFF;
    while i < |table|
      invariant 0 <= i <= |table|
      invariant prevDelta == if i == 0 then 0xFFFF_FFFF else Delta(rate, table[i - 1])
      invariant i > 0 ==> Stop(table, rate, 1) == Stop(table, rate, i)
    {
      var delta := Delta(rate, table[i]);
      if delta > prevDelta {
        break;
      }
      i, prevDelta := i + 1, delta;
    }
    return table[i - 1];
  }

  // ----- Against the nearest rate -----

  predicate Increasing(table: seq<u32>) {
    forall i, j | 0 <= i < j < |table| :: table[i] < table[j]
  }

  /** No entry is nearer, and of two equally near ones the higher is taken. */
  predicate IsNearest(table: seq<u32>, rate: u32, chosen: u32) {
    && chosen in table
    && forall r | r in table ::
         Distance(rate, chosen) <= Distance(rate, r) && (Distance(rate, chosen) == Distance(rate, r) ==> r <= chosen)
  }

  predicate Rates(table: seq<u32>) {
    table != [] && Increasing(table) && forall j | 0 <= j < |table| :: table[j] < 0x8000_0000
  }

  /** Half-way between the two lowest rates, plus 2^31; a single rate is always the nearest. */
  function Limit(table: seq<u32>): nat
    requires Rates(table)
  {
    if |table| == 1 then 0xFFFF_FFFF else 0x8000_0000 + (table[0] + table[1]) / 2
  }

  /**
   * The early exit finds the nearest rate of a strictly increasing table exactly when the
   * request is at most the limit. A rate of the table is its own nearest.
   */
  lemma EarlyExitFindsNearest(table: seq<u32>, rate: u32)
    requires Rates(table)
    ensures IsNearest(table, rate, Chosen(table, rate)) <==> rate <= Limit(table)
    ensures rate in table ==> Chosen(table, rate) == rate
  {
    if rate < 0x8000_0000 {
      NearestBelow(table, rate);
    } else if rate <= Limit(table) {
      HighestChosen(table, rate);
    } else {
      LowestChosen(table, rate);
    }
  }

  lemma NearestBelow(table: seq<u32>, rate: u32)
    requires Rates(table) && rate < 0x8000_0000
    ensures IsNearest(table, rate, Chosen(table, rate))
    ensures rate in table ==> Chosen(table, rate) == rate
  {
    var k := Stop(table, rate, 1) - 1;
    forall j | 0 <= j < |table|
      ensures Distance(rate, table[k]) <= Distance(rate, table[j])
      ensures Distance(rate, table[k]) == Distance(rate, table[j]) ==> table[j] <= table[k]
    {
      if j < k {
        NoFarther(table[j], table[k - 1], table[k], rate);
      } else if k < j {
        Farther(table[k], table[k + 1], table[j], rate);
      }
    }
  }

  lemma NoFarther(r: u32, last: u32, chosen: u32, rate: u32)
    requires r <= last < chosen < 0x8000_0000 && rate < 0x8000_0000 && Delta(rate, chosen) <= Delta(rate, last)
    ensures Distance(rate, chosen) <= Distance(rate, r)
  {
  }

  lemma Farther(chosen: u32, next: u32, r: u32, rate: u32)
    requires chosen < next <= r < 0x8000_0000 && rate < 0x8000_0000 && Delta(rate, next) > Delta(rate, chosen)
    ensures Distance(rate, chosen) < Distance(rate, r)
  {
  }

  lemma HighestChosen(table: seq<u32>, rate: u32)
    requires Rates(table) && 0x8000_0000 <= rate <= Limit(table)
    ensures IsNearest(table, rate, Chosen(table, rate)) && rate !in table
  {
    forall j | 1 <= j < |table| ensures Delta(rate, table[j]) <= Delta(rate, table[j - 1]) {
      assert table[1] <= table[j] && table[j - 1] < table[j];
      assert j > 1 ==> table[1] <= table[j - 1];
    }
    assert Stop(table, rate, 1) == |table|;
  }

  lemma LowestChosen(table: seq<u32>, rate: u32)
    requires Rates(table) && rate > Limit(table)
    ensures Chosen(table, rate) == table[0] && !IsNearest(table, rate, table[0]) && rate !in table
  {
    assert Delta(rate, table[1]) > Delta(rate, table[0]);
    assert Distance(rate, table[1]) < Distance(rate, table[0]) && table[1] in table;
  }

  const INPUT_SAMPLING_RATES: seq<u32> := [8000, 11025, 12000, 16000, 22050, 24000, 32000, 44100, 48000]

  /** For the rates of the hardware the limit is 2147493160; above it the lowest rate is chosen. */
  lemma HardwareRates(rate: u32)
    ensures IsNearest(INPUT_SAMPLING_RATES, rate, Chosen(INPUT_SAMPLING_RATES, rate)) <==> rate <= 2147493160
    ensures rate > 2147493160 ==> Chosen(INPUT_SAMPLING_RATES, rate) == 8000
  {
    var table := INPUT_SAMPLING_RATES;
    EarlyExitFindsNearest(table, rate);
    if rate > Limit(table) {
      LowestChosen(table, rate);
    }
  }

  predicate Supported(rate: u32) {
    rate in {8000, 11025, 12000, 16000, 22050, 24000, 32000, 44100, 48000}
  }

  lemma TableHasSupported(rate: u32)
    ensures Supported(rate) <==> rate in INPUT_SAMPLING_RATES
  {
    var table := INPUT_SAMPLING_RATES;
    assert table[0] == 8000 && table[1] == 11025 && table[2] == 12000;
    assert table[3] == 16000 && table[4] == 22050 && table[5] == 24000;
    assert table[6] == 32000 && table[7] == 44100 && table[8] == 48000;
  }

  lemma ChosenIsThere(table: seq<u32>, rate: u32)
    requires Rates(table) && forall r :: r in table <==> Supported(r)
    ensures Supported(Chosen(table, rate)) && (Supported(rate) ==> Chosen(table, rate) == rate)
  {
    EarlyExitFindsNearest(table, rate);
    assert Chosen(table, rate) in table;
  }

  /** The hardware gets one of nine rates, and each of these if it is asked for. */
  lemma SupportedRatesAreKept(rate: u32)
    ensures Supported(Chosen(INPUT_SAMPLING_RATES, rate))
    ensures Supported(rate) ==> Chosen(INPUT_SAMPLING_RATES, rate) == rate
  {
    forall r ensures r in INPUT_SAMPLING_RATES <==> Supported(r) {
      TableHasSupported(r);
    }
    ChosenIsThere(INPUT_SAMPLING_RATES, rate);
  }
}
