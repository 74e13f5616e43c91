/**
 * Translating audio device masks between two revisions of the audio interface. A mask is the
 * set of its bits; in revision 2.0 bit 31 marks a mask of input devices.
 */
module DeviceMask {

  type Bit = i: int | 0 <= i < 32

  type Mask = set<Bit>

  const BIT_IN: Bit := 31

  datatype Revision = Rev1 | Rev2

  /** A device in both revisions. */
  datatype Row = Row(rev1: Mask, rev2: Mask) {
    function In(rev: Revision): Mask { if rev == Rev1 then rev1 else rev2 }
  }

  /** The direction bit of a mask, and its device bits. */
  function InBit(from: Mask, rev: Revision): Mask { if rev == Rev1 then {} else from * {BIT_IN} }

  function Devices(from: Mask, rev: Revision): Mask { if rev == Rev1 then from else from - {BIT_IN} }

  /** What the first row for a device gives; nothing if the device is not listed. */
  function Image(table: seq<Row>, cur: Mask, from: Revision, to: Revision): Mask {
    if table == [] then {}
    else if table[0].In(from) == cur then table[0].In(to)
    else Image(table[1..], cur, from, to)
  }

  /** The image of one device bit in a mask with the given direction bit. */
  function DeviceImage(table: seq<Row>, i: Bit, inBit: Mask, from: Revision, to: Revision): Mask {
    Image(table, {i} + inBit, from, to)
  }

  predicate InImages(table: seq<Row>, devices: Mask, inBit: Mask, from: Revision, to: Revision, b: Bit) {
    exists i :: i in devices && b in DeviceImage(table, i, inBit, from, to)
  }

  /** The union of the images of the single devices. */
  function Images(table: seq<Row>, devices: Mask, inBit: Mask, from: Revision, to: Revision): Mask {
    set b: Bit | InImages(table, devices, inBit, from, to, b)
  }

  function Converted(table: seq<Row>, mask: Mask, from: Revision, to: Revision): Mask {
    Images(table, Devices(mask, from), InBit(mask, from), from, to)
  }

  /** `31 - __builtin_clz` */
  function Highest(s: Mask, i: Bit): (h: Bit)
    requires exists b :: b in s && b <= i
    ensures h in s && forall b | b in s && b <= i :: b <= h
  {
    if i in s then i else Highest(s, i - 1)
  }

  /** `convert_audio_device`: the highest bit first, and for each the first row that matches. */
  method ConvertAudioDevice(table: seq<Row>, mask: Mask, from: Revision, to: Revision) returns (toDevice: Mask)
    ensures toDevice == Converted(table, mask, from, to)
  {
    toDevice := {};
    var inBit: Mask := {};
    var fromDevice := mask;
    if from != Rev1 {
      inBit := fromDevice * {BIT_IN};
      fromDevice := fromDevice - {BIT_IN};
    }
    ghost var all := Converted(table, mask, from, to);
    assert fromDevice == Devices(mask, from);
    while fromDevice != {}
      invariant inBit !! fromDevice
      invariant all == toDevice + Images(table, fromDevice, inBit, from, to)
      decreases |fromDevice|
    {
      var some :| some in fromDevice;
      var high := Highest(fromDevice, 31);
      var cur := {high} + inBit;
      var image := FindImage(table, cur, from, to);
      MoveImage(toDevice, image, Images(table, fromDevice - cur, inBit, from, to));
      toDevice := toDevice + image;
      OneDeviceLess(table, fromDevice, high, inBit, from, to);
      fromDevice := fromDevice - cur;
    }
    NoDevices(table, inBit, from, to);
  }

  /** The search of the table for one device. */
  method FindImage(table: seq<Row>, cur: Mask, from: Revision, to: Revision) returns (image: Mask)
    ensures image == Image(table, cur, from, to)
  {
    var i := 0;
    assert table[0..] == table;
    while i < |table|
      invariant 0 <= i <= |table|
      invariant Image(table, cur, from, to) == Image(table[i..], cur, from, to)
    {
      if table[i].In(from) == cur {
        return table[i].In(to);
      }
      assert table[i..][1..] == table[i + 1..];
      i := i + 1;
    }
    return {};
  }

  lemma OneDeviceLess(table: seq<Row>, devices: Mask, i: Bit, inBit: Mask, from: Revision, to: Revision)
    requires i in devices && inBit !! devices
    ensures Images(table, devices, inBit, from, to)
            == Image(table, {i} + inBit, from, to) + Images(table, devices - ({i} + inBit), inBit, from, to)
    ensures |devices - ({i} + inBit)| < |devices|
  {
    var rest := devices - ({i} + inBit);
    assert rest == devices - {i};
    forall b: Bit
      ensures InImages(table, devices, inBit, from, to, b)
              <==> b in DeviceImage(table, i, inBit, from, to) || InImages(table, rest, inBit, from, to, b)
    {
      if j :| j in devices && b in DeviceImage(table, j, inBit, from, to) {
        assert j == i || j in rest;
      }
    }
  }

  lemma NoDevices(table: seq<Row>, inBit: Mask, from: Revision, to: Revision)
    ensures Images(table, {}, inBit, from, to) == {}
  {
  }

  lemma MoveImage(a: Mask, b: Mask, c: Mask)
    ensures a + (b + c) == a + b + c
  {
  }

  /** Masks of the same direction are translated device by device. */
  lemma DistributesOverUnion(table: seq<Row>, a: Mask, b: Mask, from: Revision, to: Revision)
    requires from == Rev2 ==> (BIT_IN in a <==> BIT_IN in b)
    ensures Converted(table, a + b, from, to) == Converted(table, a, from, to) + Converted(table, b, from, to)
  {
    assert InBit(a + b, from) == InBit(a, from) == InBit(b, from);
    assert Devices(a + b, from) == Devices(a, from) + Devices(b, from);
  }

  // ----- There and back -----

  /** Rows are single devices, each of revision 2.0 once. */
  predicate ValidTable(table: seq<Row>) {
    && (forall k | 0 <= k < |table| :: SingleDevice(table[k]))
    && forall j, k | 0 <= j < k < |table| :: table[j].rev2 != table[k].rev2
  }

  predicate SingleDevice(row: Row) {
    |row.rev1| == 1 && |row.rev2 - {BIT_IN}| == 1
  }

  /** The first row with the 1.0 device of row `k`. */
  function FirstLike(table: seq<Row>, k: nat): (j: nat)
    requires k < |table|
    ensures j <= k && table[j].rev1 == table[k].rev1
    ensures forall i | 0 <= i < j :: table[i].rev1 != table[k].rev1
  {
    if table[0].rev1 == table[k].rev1 then 0 else 1 + FirstLike(table[1..], k - 1)
  }

  /** Row `k` is of a device of the mask. */
  predicate InMask(table: seq<Row>, k: nat, mask: Mask)
    requires k < |table|
  {
    exists i :: i in Devices(mask, Rev2) && table[k].rev2 == {i} + InBit(mask, Rev2)
  }

  predicate InReturned(table: seq<Row>, mask: Mask, b: Bit) {
    exists k: nat :: k < |table| && InMask(table, k, mask) && b in table[FirstLike(table, k)].rev2
  }

  /** For each listed device of the mask, the 2.0 device of the first row with its 1.0 device. */
  function Returned(table: seq<Row>, mask: Mask): Mask {
    set b: Bit | InReturned(table, mask, b)
  }

  lemma {:induction false} ImageOfFirst(table: seq<Row>, k: nat, from: Revision, to: Revision)
    requires k < |table| && forall j | 0 <= j < k :: table[j].In(from) != table[k].In(from)
    ensures Image(table, table[k].In(from), from, to) == table[k].In(to)
  {
    if k > 0 {
      assert forall j | 0 <= j < |table| - 1 :: table[1..][j] == table[j + 1];
      ImageOfFirst(table[1..], k - 1, from, to);
    }
  }

  lemma {:induction false} ImageIsOfRow(table: seq<Row>, cur: Mask, from: Revision, to: Revision)
    requires Image(table, cur, from, to) != {}
    ensures exists k :: 0 <= k < |table| && table[k].In(from) == cur
  {
    if table[0].In(from) != cur {
      ImageIsOfRow(table[1..], cur, from, to);
      var k :| 0 <= k < |table| - 1 && table[1..][k].In(from) == cur;
      assert table[k + 1].In(from) == cur;
    }
  }

  /** The two translations of one row. */
  lemma RowThereAndBack(table: seq<Row>, k: nat)
    requires ValidTable(table) && k < |table|
    ensures Image(table, table[k].rev2, Rev2, Rev1) == table[k].rev1
    ensures Image(table, table[k].rev1, Rev1, Rev2) == table[FirstLike(table, k)].rev2
  {
    ImageOfFirst(table, k, Rev2, Rev1);
    ImageOfFirst(table, FirstLike(table, k), Rev1, Rev2);
  }

  /**
   * A mask of one listed device becomes that device's other mask: from 1.0 that of the first row
   * with it.
   */
  lemma OneDeviceConverts(table: seq<Row>, k: nat)
    requires ValidTable(table) && k < |table|
    ensures Converted(table, table[k].rev2, Rev2, Rev1) == table[k].rev1
    ensures Converted(table, table[k].rev1, Rev1, Rev2) == table[FirstLike(table, k)].rev2
  {
    assert SingleDevice(table[k]);
    RowThereAndBack(table, k);
    var i :| i in table[k].rev2 - {BIT_IN};
    OnlyElement(table[k].rev2 - {BIT_IN}, i);
    var j :| j in table[k].rev1;
    OnlyElement(table[k].rev1, j);
    SingleConverts(table, i, table[k].rev2, Rev2, Rev1);
    SingleConverts(table, j, table[k].rev1, Rev1, Rev2);
  }

  lemma SingleConverts(table: seq<Row>, i: Bit, mask: Mask, from: Revision, to: Revision)
    requires Devices(mask, from) == {i}
    ensures Converted(table, mask, from, to) == Image(table, mask, from, to)
  {
    var inBit := InBit(mask, from);
    OneDeviceLess(table, {i}, i, inBit, from, to);
    NoDevices(table, inBit, from, to);
    assert {i} - ({i} + inBit) == {} && {i} + inBit == mask;
  }

  /** Only bit 31 of a 2.0 mask is not a device, and it says the direction of all of them. */
  lemma BitsOfMasks(mask: Mask)
    ensures Devices(mask, Rev1) == mask && InBit(mask, Rev1) == {}
    ensures 31 !in Devices(mask, Rev2) && Devices(mask, Rev2) + InBit(mask, Rev2) == mask
    ensures InBit(mask, Rev2) == if 31 in mask then {31} else {}
  {
  }

  /** From 2.0 to 1.0 and back, every listed device comes back as the first with its 1.0 device. */
  lemma ThereAndBack(table: seq<Row>, mask: Mask)
    requires ValidTable(table)
    ensures Converted(table, Converted(table, mask, Rev2, Rev1), Rev1, Rev2) == Returned(table, mask)
  {
    var first := Converted(table, mask, Rev2, Rev1);
    forall b: Bit ensures InImages(table, first, {}, Rev1, Rev2, b) <==> InReturned(table, mask, b) {
      if InImages(table, first, {}, Rev1, Rev2, b) {
        OnlyFirstsComeBack(table, mask, b);
      } else if InReturned(table, mask, b) {
        FirstsComeBack(table, mask, b);
      }
    }
  }

  lemma OnlyFirstsComeBack(table: seq<Row>, mask: Mask, b: Bit)
    requires ValidTable(table) && InImages(table, Converted(table, mask, Rev2, Rev1), {}, Rev1, Rev2, b)
    ensures InReturned(table, mask, b)
  {
    var o :| o in Converted(table, mask, Rev2, Rev1) && b in DeviceImage(table, o, {}, Rev1, Rev2);
    var i :| i in Devices(mask, Rev2) && o in DeviceImage(table, i, InBit(mask, Rev2), Rev2, Rev1);
    ImageIsOfRow(table, {i} + InBit(mask, Rev2), Rev2, Rev1);
    var k: nat :| k < |table| && table[k].In(Rev2) == {i} + InBit(mask, Rev2);
    RowThereAndBack(table, k);
    assert SingleDevice(table[k]);
    OnlyElement(table[k].rev1, o);
    assert {o} + {} == {o} && InMask(table, k, mask);
  }

  lemma FirstsComeBack(table: seq<Row>, mask: Mask, b: Bit)
    requires ValidTable(table) && InReturned(table, mask, b)
    ensures InImages(table, Converted(table, mask, Rev2, Rev1), {}, Rev1, Rev2, b)
  {
    var k: nat :| k < |table| && InMask(table, k, mask) && b in table[FirstLike(table, k)].rev2;
    var i :| i in Devices(mask, Rev2) && table[k].rev2 == {i} + InBit(mask, Rev2);
    RowThereAndBack(table, k);
    assert SingleDevice(table[k]);
    var o :| o in table[k].rev1;
    OnlyElement(table[k].rev1, o);
    assert o in DeviceImage(table, i, InBit(mask, Rev2), Rev2, Rev1);
    assert {o} + {} == {o} && b in DeviceImage(table, o, {}, Rev1, Rev2);
  }

  lemma OnlyElement(s: Mask, x: Bit)
    requires |s| == 1 && x in s
    ensures s == {x}
  {
    assert |s - {x}| == 0;
  }

  // ----- Which masks survive -----

  /** Rows that share a 1.0 device share a direction. */
  predicate SharedDirections(table: seq<Row>) {
    forall j, k | 0 <= j < |table| && 0 <= k < |table| && table[j].rev1 == table[k].rev1 ::
      BIT_IN in table[j].rev2 <==> BIT_IN in table[k].rev2
  }

  /** The device is listed, in the first row with its 1.0 device. */
  predicate Kept(table: seq<Row>, cur: Mask) {
    exists k: nat :: k < |table| && table[k].rev2 == cur && FirstLike(table, k) == k
  }

  /**
   * A mask survives exactly when each of its devices is listed in the first row with its 1.0
   * device, and it is not the empty input mask.
   */
  lemma SurvivesIff(table: seq<Row>, mask: Mask)
    requires ValidTable(table) && SharedDirections(table)
    ensures Converted(table, Converted(table, mask, Rev2, Rev1), Rev1, Rev2) == mask
            <==> mask != {BIT_IN} && forall i | i in Devices(mask, Rev2) :: Kept(table, {i} + InBit(mask, Rev2))
  {
    ThereAndBack(table, mask);
    if mask == {BIT_IN} {
      assert Devices(mask, Rev2) == {};
      assert Returned(table, mask) == {};
    } else if Returned(table, mask) == mask {
      forall i | i in Devices(mask, Rev2) ensures Kept(table, {i} + InBit(mask, Rev2)) {
        ReturnedIsKept(table, mask, i);
      }
    } else if forall i | i in Devices(mask, Rev2) :: Kept(table, {i} + InBit(mask, Rev2)) {
      KeptMaskReturns(table, mask);
    }
  }

  lemma ReturnedIsKept(table: seq<Row>, mask: Mask, i: Bit)
    requires ValidTable(table) && SharedDirections(table)
    requires i in Devices(mask, Rev2) && i in Returned(table, mask)
    ensures Kept(table, {i} + InBit(mask, Rev2))
  {
    var k: nat :| k < |table| && InMask(table, k, mask) && i in table[FirstLike(table, k)].rev2;
    var first := FirstLike(table, k);
    InMaskDirection(table, k, mask);
    OnlyDevice(table[first], i, mask);
    FirstOfFirst(table, k);
  }

  lemma InMaskDirection(table: seq<Row>, k: nat, mask: Mask)
    requires k < |table| && InMask(table, k, mask)
    ensures BIT_IN in table[k].rev2 <==> BIT_IN in mask
  {
  }

  lemma OnlyDevice(row: Row, i: Bit, mask: Mask)
    requires SingleDevice(row) && i in row.rev2 && i != BIT_IN && (BIT_IN in row.rev2 <==> BIT_IN in mask)
    ensures row.rev2 == {i} + InBit(mask, Rev2)
  {
    OnlyElement(row.rev2 - {BIT_IN}, i);
    assert row.rev2 == (row.rev2 - {BIT_IN}) + row.rev2 * {BIT_IN};
  }

  lemma FirstOfFirst(table: seq<Row>, k: nat)
    requires k < |table|
    ensures FirstLike(table, FirstLike(table, k)) == FirstLike(table, k)
  {
  }

  lemma KeptMaskReturns(table: seq<Row>, mask: Mask)
    requires ValidTable(table) && mask != {BIT_IN}
    requires forall i | i in Devices(mask, Rev2) :: Kept(table, {i} + InBit(mask, Rev2))
    ensures Returned(table, mask) == mask
  {
    forall b: Bit | b in Returned(table, mask) ensures b in mask {
      var k: nat :| k < |table| && InMask(table, k, mask) && b in table[FirstLike(table, k)].rev2;
      KeptRow(table, k, mask);
    }
    forall b: Bit | b in mask ensures b in Returned(table, mask) {
      var i := SomeDevice(mask, b);
      KeptDeviceReturns(table, mask, i);
    }
  }

  lemma KeptRow(table: seq<Row>, k: nat, mask: Mask)
    requires ValidTable(table) && k < |table| && InMask(table, k, mask)
    requires forall i | i in Devices(mask, Rev2) :: Kept(table, {i} + InBit(mask, Rev2))
    ensures FirstLike(table, k) == k && table[k].rev2 <= mask
  {
    var i :| i in Devices(mask, Rev2) && table[k].rev2 == {i} + InBit(mask, Rev2);
    var j: nat :| j < |table| && table[j].rev2 == {i} + InBit(mask, Rev2) && FirstLike(table, j) == j;
  }

  /** A device of the mask, the one in question unless that is the direction bit. */
  lemma SomeDevice(mask: Mask, b: Bit) returns (i: Bit)
    requires mask != {BIT_IN} && b in mask
    ensures i in Devices(mask, Rev2) && b in {i} + InBit(mask, Rev2)
  {
    if b != BIT_IN {
      i := b;
    } else {
      assert mask - {BIT_IN} != {};
      i :| i in mask - {BIT_IN};
    }
  }

  lemma KeptDeviceReturns(table: seq<Row>, mask: Mask, i: Bit)
    requires i in Devices(mask, Rev2) && Kept(table, {i} + InBit(mask, Rev2))
    ensures {i} + InBit(mask, Rev2) <= Returned(table, mask)
  {
    var k: nat :| k < |table| && table[k].rev2 == {i} + InBit(mask, Rev2) && FirstLike(table, k) == k;
    assert InMask(table, k, mask);
  }

  /** The smallest case of a loss: two rows for one 1.0 device. */
  lemma SharedDeviceIsLost(table: seq<Row>, mask: Mask)
    requires table == [Row({1}, {1}), Row({1}, {30})] && mask == {30}
    ensures ValidTable(table) && SharedDirections(table)
    ensures Converted(table, Converted(table, mask, Rev2, Rev1), Rev1, Rev2) == {1}
  {
    TwoRowsAreValid(table);
    ThereAndBack(table, mask);
    forall b: Bit ensures InReturned(table, mask, b) <==> b == 1 {
      SecondRowReturnsFirst(table, mask, b);
    }
  }

  lemma TwoRowsAreValid(table: seq<Row>)
    requires table == [Row({1}, {1}), Row({1}, {30})]
    ensures ValidTable(table) && SharedDirections(table)
  {
    OneBit(1);
    OneBit(30);
    assert 30 in table[1].rev2 && 30 !in table[0].rev2;
  }

  lemma SecondRowReturnsFirst(table: seq<Row>, mask: Mask, b: Bit)
    requires table == [Row({1}, {1}), Row({1}, {30})] && mask == {30}
    ensures InReturned(table, mask, b) <==> b == 1
  {
    var first, second: nat := 0, 1;
    assert table[first].rev1 == table[second].rev1;
    assert Devices(mask, Rev2) == {30} && InBit(mask, Rev2) == {};
    assert {30} + {} == {30};
    assert InMask(table, second, mask) && FirstLike(table, second) == first;
  }

  lemma OneBit(b: Bit)
    requires b != BIT_IN
    ensures |{b}| == 1 && {b} - {BIT_IN} == {b}
  {
  }

  // ----- The hardware's table -----

  /**
   * The 1.0 column of the table, FM devices included: the default output, in row 15, is the
   * speaker's bit, and the default input, in row 26, the built-in microphone's.
   */
  const LEGACY_BITS: seq<Bit> :=
    [0, 1, 2, 3, 4, 5, 6, 7, 8, 9, 10, 11, 12, 15, 16, 1, 20, 21, 22, 23, 24, 25, 26, 27, 29, 30, 22]

  const DEFAULT_OUT: nat := 15
  const DEFAULT_IN: nat := 26

  /** A table with that column, whose rows up to the default output are outputs. */
  predicate HardwareTable(table: seq<Row>) {
    && ValidTable(table) && |table| == |LEGACY_BITS|
    && forall k | 0 <= k < |table| ::
         table[k].rev1 == {LEGACY_BITS[k]} && (BIT_IN in table[k].rev2 <==> k > DEFAULT_OUT)
  }

  predicate AllListed(table: seq<Row>, mask: Mask) {
    forall i | i in Devices(mask, Rev2) ::
      exists k: nat :: k < |table| && table[k].rev2 == {i} + InBit(mask, Rev2)
  }

  /**
   * On the hardware's table a mask of listed devices survives exactly when it has neither
   * default device: those come back as the speaker and the built-in microphone.
   */
  lemma DefaultsAreLost(table: seq<Row>, mask: Mask)
    requires HardwareTable(table) && mask != {BIT_IN} && AllListed(table, mask)
    ensures Converted(table, Converted(table, mask, Rev2, Rev1), Rev1, Rev2) == mask
            <==> !InMask(table, DEFAULT_OUT, mask) && !InMask(table, DEFAULT_IN, mask)
    ensures Image(table, table[DEFAULT_OUT].rev1, Rev1, Rev2) == table[1].rev2
    ensures Image(table, table[DEFAULT_IN].rev1, Rev1, Rev2) == table[18].rev2
  {
    RepeatedBits(table);
    RowThereAndBack(table, DEFAULT_OUT);
    RowThereAndBack(table, DEFAULT_IN);
    SurvivesIff(table, mask);
    forall i | i in Devices(mask, Rev2)
      ensures var cur := {i} + InBit(mask, Rev2);
              Kept(table, cur) <==> cur != table[DEFAULT_OUT].rev2 && cur != table[DEFAULT_IN].rev2
    {
      KeptUnlessDefault(table, mask, i);
    }
  }

  lemma KeptUnlessDefault(table: seq<Row>, mask: Mask, i: Bit)
    requires HardwareTable(table) && AllListed(table, mask) && i in Devices(mask, Rev2)
    ensures var cur := {i} + InBit(mask, Rev2);
            Kept(table, cur) <==> cur != table[DEFAULT_OUT].rev2 && cur != table[DEFAULT_IN].rev2
  {
    RepeatedBits(table);
    var k: nat :| k < |table| && table[k].rev2 == {i} + InBit(mask, Rev2);
    forall j: nat | j < |table| && table[j].rev2 == table[k].rev2 ensures j == k {
    }
  }

  /** The first row with the 1.0 device of row `k`: the speaker's and the microphone's for defaults. */
  function FirstRow(k: nat): nat {
    if k == DEFAULT_OUT then 1 else if k == DEFAULT_IN then 18 else k
  }

  lemma RepeatedBits(table: seq<Row>)
    requires HardwareTable(table)
    ensures SharedDirections(table)
    ensures forall k: nat | k < |table| :: FirstLike(table, k) == FirstRow(k)
  {
    forall j, k | 0 <= j < |table| && 0 <= k < |table| && table[j].rev1 == table[k].rev1
      ensures BIT_IN in table[j].rev2 <==> BIT_IN in table[k].rev2
    {
      if j != k {
        SameBits(table, if j < k then j else k, if j < k then k else j);
      }
    }
    forall k: nat | k < |table| ensures FirstLike(table, k) == FirstRow(k) {
      FirstOfRow(table, k);
    }
  }

  lemma FirstOfRow(table: seq<Row>, k: nat)
    requires HardwareTable(table) && k < |table|
    ensures FirstLike(table, k) == FirstRow(k)
  {
    var first := FirstRow(k);
    assert LEGACY_BITS[first] == LEGACY_BITS[k];
    forall i | 0 <= i < first ensures table[i].rev1 != table[k].rev1 {
      if table[i].rev1 == table[k].rev1 {
        SameBits(table, i, k);
      }
    }
    FirstIs(table, first, k);
  }

  lemma FirstIs(table: seq<Row>, j: nat, k: nat)
    requires j <= k < |table| && table[j].rev1 == table[k].rev1
    requires forall i | 0 <= i < j :: table[i].rev1 != table[k].rev1
    ensures FirstLike(table, k) == j
  {
  }

  lemma SameBits(table: seq<Row>, j: nat, k: nat)
    requires HardwareTable(table) && j < k < |table| && table[j].rev1 == table[k].rev1
    ensures (j, k) == (1, DEFAULT_OUT) || (j, k) == (18, DEFAULT_IN)
  {
    assert LEGACY_BITS[j] in table[j].rev1 && LEGACY_BITS[k] in table[k].rev1;
    assert LEGACY_BITS[j] == LEGACY_BITS[k];
    RepeatedLegacyBits(j, k);
  }

  lemma RepeatedLegacyBits(j: nat, k: nat)
    requires j < k < |LEGACY_BITS| && LEGACY_BITS[j] == LEGACY_BITS[k]
    ensures (j, k) == (1, DEFAULT_OUT) || (j, k) == (18, DEFAULT_IN)
  {
  }
}
