/** IPv4 planning: free gaps of a subnet, splitting a block, and the most specific subnet of an address. */
module SubnetPlan {
  import opened Wrappers
  import opened Arithmetic
  import opened Bits
  import opened Text
  import opened Ipv4
  import opened Ipv4Text
  import opened Cidr
  import opened FreeGaps
  import opened Sorting
  import Discovery

  // ---- addresses as `ipv4Number` reads them: four parts that `Number` takes for 0..255

  predicate IsReadable(address: string) {
    var parts := Split(address, '.');
    |parts| == 4 && forall i :: 0 <= i < 4 ==> IsNumeral(parts[i], 10) && ValueOf(parts[i], 10) <= 255
  }

  ghost predicate IsDecimalByte(part: string) {
    (forall k :: 0 <= k < |part| ==> '0' <= part[k] <= '9') && ValueOf(part, 10) <= 255
  }

  /** Which dotted texts are readable: parts of any length, even none. */
  lemma ReadableTexts(parts: seq<string>)
    requires |parts| >= 1 && Free(parts, '.')
    ensures IsReadable(Join(parts, '.')) <==> |parts| == 4 && forall i :: 0 <= i < 4 ==> IsDecimalByte(parts[i])
  {
    hide Split, Join, ValueOf;
    SplitJoin(parts, '.');
  }

  function ReadIpv4(address: string): (value: nat)
    requires IsReadable(address)
    ensures value < TWO_TO_32
  {
    var parts := Split(address, '.');
    FromOctets(seq(4, i requires 0 <= i < 4 => ValueOf(parts[i], 10)))
  }

  lemma ReadsStrictText(address: string)
    requires IsIpv4(address)
    ensures IsReadable(address) && ReadIpv4(address) == Ipv4Number(address)
  {
  }

  // ---- calculateIpv4SubnetPlan

  datatype Row = Row(address: string, state: string)

  datatype AddressGap = AddressGap(start: string, end: string, count: int)

  /** `utilization` is the percentage in hundredths. */
  datatype Plan = Plan(network: string, broadcast: string, usableRange: (string, string), usableTotal: nat,
                       unavailable: nat, free: nat, utilization: nat, usableGaps: seq<AddressGap>,
                       unavailableAddresses: seq<string>)

  datatype PlanError = InvalidIpv4

  /** `Math.round((part / total) * 10000)`: to the nearest hundredth of a percent, halves up. */
  function Hundredths(part: nat, total: nat): nat
    requires total > 0
  {
    (part * 20000 + total) / (2 * total)
  }

  /** The stored percentage is within half a hundredth of the true one. */
  lemma HundredthsNearest(part: nat, total: nat)
    requires total > 0
    ensures 20000 * part - total <= 2 * (Hundredths(part, total) * total) <= 20000 * part + total
  {
    var x := part * 20000 + total;
    assert x == x / (2 * total) * (2 * total) + x % (2 * total);
    assert x / (2 * total) * (2 * total) == 2 * (Hundredths(part, total) * total);
  }

  predicate IsTaken(row: Row) {
    row.state != "FREE"
  }

  predicate AllReadable(rows: seq<Row>) {
    forall i :: 0 <= i < |rows| && IsTaken(rows[i]) ==> IsReadable(rows[i].address)
  }

  lemma AllReadableIff(rows: seq<Row>)
    ensures AllReadable(rows) <==>
      forall i :: 0 <= i < |rows| && rows[i].state != "FREE" ==> IsReadable(rows[i].address)
  {
    hide IsReadable;
  }

  predicate IsUnavailable(rows: seq<Row>, first: int, last: int, v: int) {
    && first <= v <= last
    && exists i ::
         0 <= i < |rows| && rows[i].state != "FREE" && IsReadable(rows[i].address) && ReadIpv4(rows[i].address) == v
  }

  /** The values of the rows that are not FREE and lie in the usable range, in row order. */
  function TakenValues(rows: seq<Row>, first: int, last: int): seq<int>
    requires AllReadable(rows)
  {
    if |rows| == 0 then []
    else
      var rest := TakenValues(rows[1..], first, last);
      if IsTaken(rows[0]) && first <= ReadIpv4(rows[0].address) <= last then [ReadIpv4(rows[0].address)] + rest
      else rest
  }

  lemma {:induction false} TakenValuesExact(rows: seq<Row>, first: int, last: int)
    requires AllReadable(rows)
    ensures forall v :: v in TakenValues(rows, first, last) <==> IsUnavailable(rows, first, last, v)
  {
    hide IsReadable, ReadIpv4;
    if |rows| > 0 {
      TakenValuesExact(rows[1..], first, last);
      forall v
        ensures v in TakenValues(rows, first, last) <==> IsUnavailable(rows, first, last, v)
      {
        UnavailableStep(rows, first, last, v);
      }
    }
  }

  lemma UnavailableStep(rows: seq<Row>, first: int, last: int, v: int)
    requires |rows| > 0 && AllReadable(rows)
    ensures IsUnavailable(rows, first, last, v) <==>
      || IsUnavailable(rows[1..], first, last, v)
      || (first <= v <= last && rows[0].state != "FREE" && ReadIpv4(rows[0].address) == v)
  {
  }

  function PrintGap(gap: Gap): AddressGap
    requires 0 <= gap.start <= gap.end < TWO_TO_32
  {
    AddressGap(Ipv4Address(gap.start), Ipv4Address(gap.end), gap.count)
  }

  ghost predicate Prints(text: string, value: int) {
    IsIpv4(text) && Ipv4Number(text) == value
  }

  /** The printed gaps read back as the given ones. */
  ghost predicate GapsPrinted(printed: seq<AddressGap>, gaps: seq<Gap>) {
    |printed| == |gaps| && forall i :: 0 <= i < |gaps| ==>
      && Prints(printed[i].start, gaps[i].start)
      && Prints(printed[i].end, gaps[i].end)
      && printed[i].count == gaps[i].count
  }

  ghost predicate AddressesPrinted(printed: seq<string>, values: seq<int>) {
    |printed| == |values| && forall i :: 0 <= i < |values| ==> Prints(printed[i], values[i])
  }

  ghost predicate Printable(gaps: seq<Gap>) {
    forall i :: 0 <= i < |gaps| ==> 0 <= gaps[i].start <= gaps[i].end < TWO_TO_32
  }

  lemma PrintedAddress(value: nat)
    requires value < TWO_TO_32
    ensures Prints(Ipv4Address(value), value)
  {
    Ipv4RoundTrip(value);
  }

  method PrintGaps(gaps: seq<Gap>) returns (printed: seq<AddressGap>)
    requires Printable(gaps)
    ensures GapsPrinted(printed, gaps)
  {
    hide Prints, Ipv4Address;
    printed := [];
    for i := 0 to |gaps|
      invariant GapsPrinted(printed, gaps[..i])
    {
      PrintedAddress(gaps[i].start);
      PrintedAddress(gaps[i].end);
      printed := printed + [PrintGap(gaps[i])];
    }
    assert gaps[..|gaps|] == gaps;
  }

  method PrintAddresses(values: seq<int>) returns (printed: seq<string>)
    requires Within(values, 0, TWO_TO_32 - 1)
    ensures AddressesPrinted(printed, values)
  {
    hide Prints, Ipv4Address;
    printed := [];
    for i := 0 to |values|
      invariant AddressesPrinted(printed, values[..i])
    {
      assert values[i] in values;
      PrintedAddress(values[i]);
      printed := printed + [Ipv4Address(values[i])];
    }
    assert values[..|values|] == values;
  }

  /**
   * The plan of a block whose usable addresses are first..last: the gaps are sorted, apart, maximal,
   * cover exactly the usable addresses that no row takes, and count the free addresses.
   */
  ghost predicate IsPlan(plan: Plan, rows: seq<Row>, first: nat, last: nat) {
    exists gaps: seq<Gap>, values: seq<int> ::
      && GapsPrinted(plan.usableGaps, gaps) && AddressesPrinted(plan.unavailableAddresses, values)
      && IsPlanOf(plan, rows, first, last, gaps, values)
  }

  ghost predicate IsPlanOf(plan: Plan, rows: seq<Row>, first: nat, last: nat, gaps: seq<Gap>, values: seq<int>) {
    && Prints(plan.usableRange.0, first) && Prints(plan.usableRange.1, last)
    && StrictlyIncreasing(values) && (forall v :: v in values <==> IsUnavailable(rows, first, last, v))
    && AreGaps(gaps, first, last + 1, values)
    && plan.usableTotal == last - first + 1
    && plan.unavailable == |values|
    && plan.free == plan.usableTotal - plan.unavailable == TotalCount(gaps)
    && plan.usableTotal > 0 && plan.utilization == Hundredths(plan.unavailable, plan.usableTotal)
  }

  lemma GapsPrintable(gaps: seq<Gap>, first: nat, end: nat, taken: seq<int>)
    requires AreGaps(gaps, first, end, taken) && end <= TWO_TO_32
    ensures Printable(gaps) && TotalCount(gaps) >= 0
  {
    hide Exact, Maximal;
    CountNatural(gaps, first, end);
  }

  lemma {:induction false} CountNatural(gaps: seq<Gap>, first: int, end: int)
    requires InOrder(gaps, first, end)
    ensures TotalCount(gaps) >= 0
  {
    if |gaps| > 0 {
      CountNatural(gaps[..|gaps| - 1], first, end);
    }
  }

  method PlanRange(rows: seq<Row>, network: nat, broadcast: nat, first: nat, last: nat) returns (plan: Plan)
    requires AllReadable(rows) && first <= last < TWO_TO_32 && network < TWO_TO_32 && broadcast < TWO_TO_32
    ensures IsPlan(plan, rows, first, last)
    ensures Prints(plan.network, network) && Prints(plan.broadcast, broadcast)
  {
    hide *;
    var unavailable := SortDistinct(TakenValues(rows, first, last));
    UnavailableShape(rows, first, last, unavailable);
    var gaps := FindGaps(first, last, unavailable);
    GapsPrintable(gaps, first, last + 1, unavailable);
    var usableTotal := if last - first + 1 > 0 then last - first + 1 else 0;
    var free := if usableTotal - |unavailable| > 0 then usableTotal - |unavailable| else 0;
    var usableGaps := PrintGaps(gaps);
    var unavailableAddresses := PrintAddresses(unavailable);
    PrintedAddress(first);
    PrintedAddress(last);
    PrintedAddress(network);
    PrintedAddress(broadcast);
    plan := Plan(Ipv4Address(network), Ipv4Address(broadcast), (Ipv4Address(first), Ipv4Address(last)), usableTotal,
                 |unavailable|, free, Hundredths(|unavailable|, usableTotal), usableGaps, unavailableAddresses);
    PlanMade(plan, rows, first, last, gaps, unavailable);
  }

  lemma UnavailableShape(rows: seq<Row>, first: nat, last: nat, unavailable: seq<int>)
    requires AllReadable(rows) && first <= last < TWO_TO_32
    requires unavailable == SortDistinct(TakenValues(rows, first, last))
    ensures StrictlyIncreasing(unavailable)
    ensures forall v :: v in unavailable <==> IsUnavailable(rows, first, last, v)
    ensures Within(unavailable, first, last) && Within(unavailable, 0, TWO_TO_32 - 1)
  {
    hide AllReadable, SortDistinct, TakenValues, IsReadable, ReadIpv4, IsTaken;
    SortedDistinct(TakenValues(rows, first, last));
    TakenValuesExact(rows, first, last);
  }

  lemma PlanMade(plan: Plan, rows: seq<Row>, first: nat, last: nat, gaps: seq<Gap>, values: seq<int>)
    requires GapsPrinted(plan.usableGaps, gaps) && AddressesPrinted(plan.unavailableAddresses, values)
    requires Prints(plan.usableRange.0, first) && Prints(plan.usableRange.1, last)
    requires StrictlyIncreasing(values) && (forall v :: v in values <==> IsUnavailable(rows, first, last, v))
    requires AreGaps(gaps, first, last + 1, values)
    requires plan.usableTotal == last - first + 1
    requires plan.unavailable == |values|
    requires plan.free == plan.usableTotal - plan.unavailable == TotalCount(gaps)
    requires plan.usableTotal > 0 && plan.utilization == Hundredths(plan.unavailable, plan.usableTotal)
    ensures IsPlan(plan, rows, first, last)
  {
    hide GapsPrinted, AddressesPrinted, Prints, StrictlyIncreasing, AreGaps, IsUnavailable, TotalCount, Hundredths;
    assert IsPlanOf(plan, rows, first, last, gaps, values);
  }

  method CalculateIpv4SubnetPlan(cidr: string, rows: seq<Row>) returns (r: Result<Plan, PlanError>)
    ensures r.Ok? <==>
      && IsReadable(AddressOf(cidr)) && PrefixOf(cidr).Some? && PrefixOf(cidr).value <= 32
      && forall i :: 0 <= i < |rows| && rows[i].state != "FREE" ==> IsReadable(rows[i].address)
    ensures r.Ok? ==>
      var prefix := PrefixOf(cidr).value;
      var start, size := AlignDown(ReadIpv4(AddressOf(cidr)), 32 - prefix), Pow2(32 - prefix);
      && size >= 1 && (prefix < 31 ==> size > 2)
      && Prints(r.value.network, start) && Prints(r.value.broadcast, start + size - 1)
      && if prefix >= 31 then IsPlan(r.value, rows, start, start + size - 1)
         else IsPlan(r.value, rows, start + 1, start + size - 2)
  {
    hide Prints, IsReadable, ReadIpv4, AllReadable, IsPlan, NetworkOf, BroadcastOf, AddressOf, PrefixOf, AlignDown,
      Pow2;
    AllReadableIff(rows);
    if !IsReadable(AddressOf(cidr)) || PrefixOf(cidr).None? || PrefixOf(cidr).value > 32 || !AllReadable(rows) {
      return Err(InvalidIpv4);
    }
    var value, prefix := ReadIpv4(AddressOf(cidr)), PrefixOf(cidr).value;
    Discovery.UsableRange(value, prefix);
    SignedShiftBlock(value, prefix);
    var network := NetworkOf(value, prefix);
    var broadcast := BroadcastOf(network, prefix);
    var first := if prefix >= 31 then network else network + 1;
    var last := if prefix >= 31 then broadcast else broadcast - 1;
    var plan := PlanRange(rows, network, broadcast, first, last);
    r := Ok(plan);
  }

  // ---- splitting a block

  datatype Piece = Piece(number: nat, cidr: string, network: nat, firstUsable: int, lastUsable: int, broadcast: int,
      usableIps: nat)

  datatype SplitError = InvalidCidr | TooManySubnets | ChooseLongerPrefix

  const MAX_PIECES: nat := 4096

  /** The block that starts at `start`, as one row of the split. */
  function PieceAt(start: nat, size: nat, newPrefix: nat, index: nat): Piece
    requires start < TWO_TO_32
  {
    var end := start + size - 1;
    Piece(index + 1, Render(Ipv4Address(start), newPrefix), start,
          if newPrefix >= 31 then start else start + 1, if newPrefix >= 31 then end else end - 1, end,
          if newPrefix >= 31 then size else if size >= 2 then size - 2 else 0)
  }

  function Pieces(network: nat, newPrefix: nat, count: nat): (pieces: seq<Piece>)
    requires newPrefix <= 32 && network + count * Pow2(32 - newPrefix) <= TWO_TO_32
    ensures |pieces| == count
  {
    if count == 0 then []
    else
      var size := Pow2(32 - newPrefix);
      LastPieceFits(network, size, count);
      Pieces(network, newPrefix, count - 1) + [PieceAt(network + (count - 1) * size, size, newPrefix, count - 1)]
  }

  lemma LastPieceFits(network: nat, size: nat, count: nat)
    requires count >= 1 && network + count * size <= TWO_TO_32 && size >= 1
    ensures 0 <= (count - 1) * size && (count - 1) * size + size == count * size
  {
  }

  lemma SplitFits(value: nat, prefix: nat, newPrefix: nat)
    requires value < TWO_TO_32 && prefix <= newPrefix <= 32
    ensures Pow2(newPrefix - prefix) * Pow2(32 - newPrefix) == Pow2(32 - prefix)
    ensures AlignDown(value, 32 - prefix) + Pow2(32 - prefix) <= TWO_TO_32
    ensures AlignDown(value, 32 - prefix) % Pow2(32 - newPrefix) == 0
  {
    Pow2Add(newPrefix - prefix, 32 - newPrefix);
    Pow2Of32();
    BlockFits(value, 32, 32 - prefix);
    MultipleOfFiner(value, Pow2(newPrefix - prefix), Pow2(32 - newPrefix));
  }

  lemma MultipleOfFiner(value: nat, n: nat, d: nat)
    requires n > 0 && d > 0 && n * d > 0
    ensures Floor(value, n * d) % d == 0
  {
    FloorMultiple(value, n * d);
    var q := value / (n * d);
    assert q * (n * d) == (q * n) * d;
    DivModUnique(Floor(value, n * d), d, q * n, 0);
  }

  lemma ParentFits(cidr: string, newPrefix: nat)
    requires CidrInfo(cidr).Some? && CidrInfo(cidr).value.Info4?
    requires CidrInfo(cidr).value.prefix <= newPrefix <= 32
    ensures var info := CidrInfo(cidr).value;
      && info.network % Pow2(32 - newPrefix) == 0
      && info.network + Pow2(newPrefix - info.prefix) * Pow2(32 - newPrefix) == info.broadcast + 1 <= TWO_TO_32
  {
    hide NetworkOf, BroadcastOf, AddressOf, PrefixOf, IsIpv4, Ipv4Number, Pow2, AlignDown;
    var info := CidrInfo(cidr).value;
    CidrInfoShape(cidr);
    SignedShiftBlock(Ipv4Number(AddressOf(cidr)), info.prefix);
    SplitFits(Ipv4Number(AddressOf(cidr)), info.prefix, newPrefix);
  }

  /** The split of the calculator: `newPrefix` is at most 32 by its validation. */
  function SplitBlock(cidr: string, newPrefix: nat): Result<seq<Piece>, SplitError>
    requires newPrefix <= 32
  {
    hide CidrInfo, Pow2;
    match CidrInfo(cidr)
    case None => Err(InvalidCidr)
    case Some(info) =>
      if info.Info6? || newPrefix < info.prefix then Err(ChooseLongerPrefix)
      else if Pow2(newPrefix - info.prefix) > MAX_PIECES then Err(TooManySubnets)
      else
        ParentFits(cidr, newPrefix);
        Ok(Pieces(info.network, newPrefix, Pow2(newPrefix - info.prefix)))
  }

  /** The usable addresses are all of the block from prefix 31 on, and otherwise all but its first and last. */
  ghost predicate IsUsablePart(piece: Piece, newPrefix: nat) {
    if newPrefix >= 31 then
      piece.firstUsable == piece.network && piece.lastUsable == piece.broadcast &&
      piece.usableIps == piece.broadcast - piece.network + 1
    else
      piece.firstUsable == piece.network + 1 && piece.lastUsable == piece.broadcast - 1 &&
      piece.usableIps == piece.broadcast - piece.network - 1
  }

  lemma PieceIsUsable(start: nat, newPrefix: nat, index: nat)
    requires newPrefix <= 32 && start < TWO_TO_32
    ensures IsUsablePart(PieceAt(start, Pow2(32 - newPrefix), newPrefix, index), newPrefix)
  {
    hide Render, Ipv4Address;
    if newPrefix <= 31 {
      assert Pow2(32 - newPrefix) == 2 * Pow2(31 - newPrefix);
    }
  }

  /** A split is refused for text that is no CIDR, for IPv6 and shorter prefixes, and for more than 4096 pieces. */
  lemma SplitIff(cidr: string, newPrefix: nat)
    requires newPrefix <= 32
    ensures var r := SplitBlock(cidr, newPrefix);
      if CidrInfo(cidr).None? then r == Err(InvalidCidr)
      else if CidrInfo(cidr).value.Info6? || newPrefix < CidrInfo(cidr).value.prefix then r == Err(ChooseLongerPrefix)
      else if newPrefix - CidrInfo(cidr).value.prefix > 12 then r == Err(TooManySubnets)
      else r.Ok?
  {
    hide CidrInfo, Pieces, Pow2;
    if CidrInfo(cidr).Some? && CidrInfo(cidr).value.Info4? && CidrInfo(cidr).value.prefix <= newPrefix {
      UpTo4096(newPrefix - CidrInfo(cidr).value.prefix);
    }
  }

  lemma UpTo4096(n: nat)
    ensures n <= 12 ==> Pow2(n) <= 4096
    ensures n > 12 ==> Pow2(n) > 4096
  {
    assert Pow2(6) == 64;
    Pow2Add(6, 6);
    Pow2Add(12, 1);
    hide Pow2;
    if n <= 12 {
      Pow2Monotone(n, 12);
    } else {
      Pow2Monotone(13, n);
    }
  }

  /** A piece is a stored-form CIDR: reading its text back gives the text, and the block the row shows. */
  ghost predicate IsNormalPiece(piece: Piece, newPrefix: nat) {
    && piece.broadcast >= 0
    && CidrInfo(piece.cidr) == Some(Info4(newPrefix, piece.network, piece.broadcast, piece.cidr))
    && IsUsablePart(piece, newPrefix)
  }

  ghost predicate Tiles(pieces: seq<Piece>, newPrefix: nat, network: nat, end: nat) {
    && (forall i :: 0 <= i < |pieces| ==> IsNormalPiece(pieces[i], newPrefix) && pieces[i].number == i + 1)
    && (forall i :: 0 < i < |pieces| ==> pieces[i].network == pieces[i - 1].broadcast + 1)
    && (|pieces| > 0 ==> pieces[0].network == network)
    && end == (if |pieces| > 0 then pieces[|pieces| - 1].broadcast + 1 else network)
  }

  lemma AlignedPiece(start: nat, newPrefix: nat, index: nat)
    requires newPrefix <= 32 && start % Pow2(32 - newPrefix) == 0 && start < TWO_TO_32
    ensures IsNormalPiece(PieceAt(start, Pow2(32 - newPrefix), newPrefix, index), newPrefix)
  {
    hide CidrInfo, Ipv4Address, Render, Pow2, IsUsablePart;
    PrintedBlock(start, newPrefix);
    PieceIsUsable(start, newPrefix, index);
  }

  lemma {:induction false} PiecesTile(network: nat, newPrefix: nat, count: nat)
    requires newPrefix <= 32 && network + count * Pow2(32 - newPrefix) <= TWO_TO_32
    requires network % Pow2(32 - newPrefix) == 0
    ensures 0 <= count * Pow2(32 - newPrefix)
    ensures Tiles(Pieces(network, newPrefix, count), newPrefix, network, network + count * Pow2(32 - newPrefix))
  {
    hide IsNormalPiece, Pow2, Ipv4Address, Render;
    if count > 0 {
      var size := Pow2(32 - newPrefix);
      LastPieceFits(network, size, count);
      PiecesTile(network, newPrefix, count - 1);
      StepAligned(network, size, count - 1);
      AlignedPiece(network + (count - 1) * size, newPrefix, count - 1);
    }
  }

  lemma StepAligned(network: nat, size: nat, k: nat)
    requires size > 0 && network % size == 0
    ensures (network + k * size) % size == 0
  {
    var q := network / size;
    assert network + k * size == (q + k) * size;
    DivModUnique(network + k * size, size, q + k, 0);
  }

  /** The pieces tile the block exactly, in order, each already in normalized form; there are 2^(newPrefix - prefix). */
  lemma SplitTiles(cidr: string, newPrefix: nat)
    requires newPrefix <= 32 && SplitBlock(cidr, newPrefix).Ok?
    ensures CidrInfo(cidr).Some? && CidrInfo(cidr).value.Info4?
    ensures var info, pieces := CidrInfo(cidr).value, SplitBlock(cidr, newPrefix).value;
      && info.prefix <= newPrefix && |pieces| == Pow2(newPrefix - info.prefix) <= MAX_PIECES
      && Tiles(pieces, newPrefix, info.network, info.broadcast + 1)
  {
    hide Tiles, CidrInfo, Pieces, Pow2;
    var info := CidrInfo(cidr).value;
    ParentFits(cidr, newPrefix);
    PiecesTile(info.network, newPrefix, Pow2(newPrefix - info.prefix));
  }

  // ---- the most specific subnet (SNMP enrolment)

  predicate InCidr(address: string, cidr: string) {
    && IsReadable(address) && IsReadable(AddressOf(cidr))
    && PrefixOf(cidr).Some? && PrefixOf(cidr).value <= 32
    && InMaskedBlock(ReadIpv4(address), ReadIpv4(AddressOf(cidr)), PrefixOf(cidr).value)
  }

  /** On well-formed texts the masked comparison agrees with `addressInCidr`. */
  lemma InCidrIsAddressInCidr(address: string, cidr: string)
    requires IsIpv4(address) && CidrInfo(cidr).Some? && CidrInfo(cidr).value.Info4?
    ensures InCidr(address, cidr) <==> AddressInCidr(address, cidr)
  {
    hide NetworkOf, BroadcastOf, IsIpv4, Ipv4Number, IsReadable, ReadIpv4, InMaskedBlock;
    CidrInfoShape(cidr);
    ReadsStrictText(address);
    ReadsStrictText(AddressOf(cidr));
    MaskTestIsRangeTest(Ipv4Number(address), Ipv4Number(AddressOf(cidr)), PrefixOf(cidr).value);
  }

  function Containing(address: string, cidrs: seq<string>): (found: seq<string>)
    ensures forall i :: 0 <= i < |found| ==> PrefixOf(found[i]).Some?
  {
    if |cidrs| == 0 then []
    else (if InCidr(address, cidrs[0]) then [cidrs[0]] else []) + Containing(address, cidrs[1..])
  }

  /** Stable insertion, longest prefix first. */
  function InsertByPrefix(cidr: string, sorted: seq<string>): seq<string>
    requires PrefixOf(cidr).Some? && forall i :: 0 <= i < |sorted| ==> PrefixOf(sorted[i]).Some?
  {
    if |sorted| == 0 || PrefixOf(cidr).value >= PrefixOf(sorted[0]).value then [cidr] + sorted
    else [sorted[0]] + InsertByPrefix(cidr, sorted[1..])
  }

  function SortByPrefix(cidrs: seq<string>): (sorted: seq<string>)
    requires forall i :: 0 <= i < |cidrs| ==> PrefixOf(cidrs[i]).Some?
    ensures |sorted| == |cidrs|
    ensures forall i :: 0 <= i < |sorted| ==> PrefixOf(sorted[i]).Some?
  {
    if |cidrs| == 0 then []
    else
      var rest := SortByPrefix(cidrs[1..]);
      InsertLength(cidrs[0], rest);
      InsertByPrefix(cidrs[0], rest)
  }

  lemma {:induction false} InsertLength(cidr: string, sorted: seq<string>)
    requires PrefixOf(cidr).Some? && forall i :: 0 <= i < |sorted| ==> PrefixOf(sorted[i]).Some?
    ensures |InsertByPrefix(cidr, sorted)| == |sorted| + 1
    ensures forall i :: 0 <= i <= |sorted| ==> PrefixOf(InsertByPrefix(cidr, sorted)[i]).Some?
  {
    hide PrefixOf;
    if |sorted| > 0 && PrefixOf(cidr).value < PrefixOf(sorted[0]).value {
      InsertLength(cidr, sorted[1..]);
    }
  }

  function MostSpecificSubnet(address: string, cidrs: seq<string>): Option<string> {
    var sorted := SortByPrefix(Containing(address, cidrs));
    if |sorted| == 0 then None else Some(sorted[0])
  }

  /** cidrs[k] contains the address, is longer than every earlier and no shorter than every later containing subnet. */
  ghost predicate IsBest(address: string, cidrs: seq<string>, k: nat) {
    && k < |cidrs| && InCidr(address, cidrs[k])
    && (forall i :: 0 <= i < |cidrs| && InCidr(address, cidrs[i]) ==>
          PrefixOf(cidrs[i]).value <= PrefixOf(cidrs[k]).value &&
            (i < k ==> PrefixOf(cidrs[i]).value < PrefixOf(cidrs[k]).value))
  }

  /** The earliest containing subnet of maximal prefix; none only if no subnet contains the address. */
  ghost predicate IsMostSpecific(found: Option<string>, address: string, cidrs: seq<string>) {
    match found
    case None => forall i :: 0 <= i < |cidrs| ==> !InCidr(address, cidrs[i])
    case Some(best) => exists k :: 0 <= k < |cidrs| && cidrs[k] == best && IsBest(address, cidrs, k)
  }

  lemma {:induction false} MostSpecificIsBest(address: string, cidrs: seq<string>)
    ensures IsMostSpecific(MostSpecificSubnet(address, cidrs), address, cidrs)
  {
    hide InCidr, PrefixOf, IsMostSpecific;
    if |cidrs| == 0 {
      NoneToChoose(address);
    } else {
      MostSpecificIsBest(address, cidrs[1..]);
      ChooseStep(address, cidrs);
      if !InCidr(address, cidrs[0]) {
        SkipFirst(address, cidrs, MostSpecificSubnet(address, cidrs[1..]));
      } else {
        CompareFirst(address, cidrs, MostSpecificSubnet(address, cidrs[1..]));
      }
    }
  }

  lemma NoneToChoose(address: string)
    ensures IsMostSpecific(MostSpecificSubnet(address, []), address, [])
  {
  }

  function Better(cidr: string, rest: Option<string>): Option<string>
    requires PrefixOf(cidr).Some? && (rest.Some? ==> PrefixOf(rest.value).Some?)
  {
    if rest.None? || PrefixOf(cidr).value >= PrefixOf(rest.value).value then Some(cidr) else rest
  }

  lemma ChooseStep(address: string, cidrs: seq<string>)
    requires |cidrs| > 0
    ensures !InCidr(address, cidrs[0]) ==> MostSpecificSubnet(address, cidrs) == MostSpecificSubnet(address, cidrs[1..])
    ensures var rest := MostSpecificSubnet(address, cidrs[1..]);
      && (rest.Some? ==> PrefixOf(rest.value).Some?)
      && (InCidr(address, cidrs[0]) ==>
            PrefixOf(cidrs[0]).Some? && MostSpecificSubnet(address, cidrs) == Better(cidrs[0], rest))
  {
    hide PrefixOf, IsReadable, ReadIpv4, InMaskedBlock;
    var found, rest := Containing(address, cidrs), Containing(address, cidrs[1..]);
    if InCidr(address, cidrs[0]) {
      assert found == [cidrs[0]] + rest && found[1..] == rest;
    } else {
      assert found == rest;
    }
  }

  lemma SkipFirst(address: string, cidrs: seq<string>, rest: Option<string>)
    requires |cidrs| > 0 && !InCidr(address, cidrs[0]) && IsMostSpecific(rest, address, cidrs[1..])
    ensures IsMostSpecific(rest, address, cidrs)
  {
    hide IsReadable, ReadIpv4, InMaskedBlock, PrefixOf;
    if rest.Some? {
      var k :| 0 <= k < |cidrs[1..]| && cidrs[1..][k] == rest.value && IsBest(address, cidrs[1..], k);
      assert cidrs[k + 1] == rest.value;
      forall i | 0 <= i < |cidrs| && InCidr(address, cidrs[i])
        ensures PrefixOf(cidrs[i]).value <= PrefixOf(cidrs[k + 1]).value
        ensures i < k + 1 ==> PrefixOf(cidrs[i]).value < PrefixOf(cidrs[k + 1]).value
      {
        assert cidrs[i] == cidrs[1..][i - 1];
      }
      assert IsBest(address, cidrs, k + 1);
    } else {
      forall i | 0 <= i < |cidrs| ensures !InCidr(address, cidrs[i]) {
        assert i > 0 ==> cidrs[i] == cidrs[1..][i - 1];
      }
    }
  }

  lemma CompareFirst(address: string, cidrs: seq<string>, rest: Option<string>)
    requires |cidrs| > 0 && InCidr(address, cidrs[0]) && PrefixOf(cidrs[0]).Some?
    requires IsMostSpecific(rest, address, cidrs[1..]) && (rest.Some? ==> PrefixOf(rest.value).Some?)
    ensures IsMostSpecific(Better(cidrs[0], rest), address, cidrs)
  {
    hide InCidr, PrefixOf;
    var tail := cidrs[1..];
    if rest.None? {
      FirstIsBest(address, cidrs);
    } else {
      var k :| 0 <= k < |tail| && tail[k] == rest.value && IsBest(address, tail, k);
      if PrefixOf(cidrs[0]).value >= PrefixOf(rest.value).value {
        FirstIsBest(address, cidrs);
      } else {
        LaterIsBest(address, cidrs, k);
        assert cidrs[k + 1] == rest.value;
      }
    }
  }

  lemma FirstIsBest(address: string, cidrs: seq<string>)
    requires |cidrs| > 0 && InCidr(address, cidrs[0])
    requires forall i :: 0 <= i < |cidrs[1..]| && InCidr(address, cidrs[1..][i]) ==>
      PrefixOf(cidrs[1..][i]).value <= PrefixOf(cidrs[0]).value
    ensures IsBest(address, cidrs, 0)
  {
    hide PrefixOf, IsReadable, ReadIpv4, InMaskedBlock;
    forall i | 0 <= i < |cidrs| && InCidr(address, cidrs[i])
      ensures PrefixOf(cidrs[i]).value <= PrefixOf(cidrs[0]).value
    {
      assert i > 0 ==> cidrs[i] == cidrs[1..][i - 1];
    }
  }

  lemma LaterIsBest(address: string, cidrs: seq<string>, k: nat)
    requires |cidrs| > 0 && InCidr(address, cidrs[0]) && IsBest(address, cidrs[1..], k)
    requires PrefixOf(cidrs[0]).value < PrefixOf(cidrs[1..][k]).value
    ensures IsBest(address, cidrs, k + 1)
  {
    hide PrefixOf, IsReadable, ReadIpv4, InMaskedBlock;
    assert cidrs[k + 1] == cidrs[1..][k];
    forall i | 0 <= i < |cidrs| && InCidr(address, cidrs[i])
      ensures PrefixOf(cidrs[i]).Some? && PrefixOf(cidrs[k + 1]).Some?
      ensures PrefixOf(cidrs[i]).value <= PrefixOf(cidrs[k + 1]).value
      ensures i < k + 1 ==> PrefixOf(cidrs[i]).value < PrefixOf(cidrs[k + 1]).value
    {
      assert i > 0 ==> cidrs[i] == cidrs[1..][i - 1];
    }
  }

  /** The most specific subnet lies inside every subnet that contains the address. */
  lemma MostSpecificIsInnermost(address: string, cidrs: seq<string>, k: nat, i: nat, ip: nat)
    requires IsBest(address, cidrs, k) && i < |cidrs| && InCidr(address, cidrs[i])
    requires ip < TWO_TO_32
    ensures IsReadable(AddressOf(cidrs[k])) && PrefixOf(cidrs[k]).Some? && PrefixOf(cidrs[k]).value <= 32
    ensures IsReadable(AddressOf(cidrs[i])) && PrefixOf(cidrs[i]).Some? && PrefixOf(cidrs[i]).value <= 32
    ensures InMaskedBlock(ip, ReadIpv4(AddressOf(cidrs[k])), PrefixOf(cidrs[k]).value) ==>
            InMaskedBlock(ip, ReadIpv4(AddressOf(cidrs[i])), PrefixOf(cidrs[i]).value)
  {
    hide PrefixOf, IsReadable, ReadIpv4, NetworkOf;
    InnerBlock(ReadIpv4(address), ReadIpv4(AddressOf(cidrs[k])), PrefixOf(cidrs[k]).value,
               ReadIpv4(AddressOf(cidrs[i])), PrefixOf(cidrs[i]).value, ip);
  }

  lemma InnerBlock(x: nat, fine: nat, finePrefix: nat, coarse: nat, coarsePrefix: nat, ip: nat)
    requires x < TWO_TO_32 && fine < TWO_TO_32 && coarse < TWO_TO_32 && ip < TWO_TO_32
    requires coarsePrefix <= finePrefix <= 32
    requires InMaskedBlock(x, fine, finePrefix) && InMaskedBlock(x, coarse, coarsePrefix)
    ensures InMaskedBlock(ip, fine, finePrefix) ==> InMaskedBlock(ip, coarse, coarsePrefix)
  {
    hide NetworkOf, AlignDown;
    NetworkValue(x, finePrefix);
    NetworkValue(x, coarsePrefix);
    NetworkValue(fine, finePrefix);
    NetworkValue(coarse, coarsePrefix);
    NetworkValue(ip, finePrefix);
    NetworkValue(ip, coarsePrefix);
    NestedOrDisjoint(fine, 32 - finePrefix, coarse, 32 - coarsePrefix, x);
  }
}
