/**
 * IPv6 address text (section 2.2 of RFC 4291, hextet forms): expansion to eight four-digit groups
 * and the compressed form of section 4.2 of RFC 5952.
 */
module Ipv6Text {
  import opened Text

  /** `s.split('::')` */
  function SplitDouble(s: string): (pieces: seq<string>)
    ensures |pieces| >= 1
  {
    if |s| < 2 then [s]
    else if s[0] == ':' && s[1] == ':' then [""] + SplitDouble(s[2..])
    else
      var rest := SplitDouble(s[1..]);
      [[s[0]] + rest[0]] + rest[1..]
  }

  function GroupsOf(side: string): seq<string> {
    if side == "" then [] else Split(side, ':')
  }

  function LeftGroups(address: string): seq<string> {
    GroupsOf(SplitDouble(address)[0])
  }

  function RightGroups(address: string): seq<string> {
    var pieces := SplitDouble(address);
    if |pieces| > 1 then GroupsOf(pieces[1]) else []
  }

  predicate IsHextet(g: string) {
    1 <= |g| <= 4 && IsNumeral(g, 16)
  }

  predicate AllHextets(groups: seq<string>) {
    forall i :: 0 <= i < |groups| ==> IsHextet(groups[i])
  }

  /** `net.isIP(address) === 6`, restricted to text made of hextets. */
  predicate IsIpv6(address: string) {
    var left, right := LeftGroups(address), RightGroups(address);
    && AllHextets(left) && AllHextets(right)
    && (match |SplitDouble(address)|
        case 1 => |left| == 8
        case 2 => |left| + |right| <= 7
        case _ => false)
  }

  /** The eight groups an address stands for, as written. */
  function EightGroups(address: string): (groups: seq<string>)
    requires |LeftGroups(address)| + |RightGroups(address)| <= 8
    ensures |groups| == 8
  {
    var left, right := LeftGroups(address), RightGroups(address);
    left + ZeroGroups(8 - |left| - |right|) + right
  }

  /** `Array(k).fill('0')` */
  function ZeroGroups(k: nat): (groups: seq<string>)
    ensures |groups| == k && forall i :: 0 <= i < k ==> groups[i] == "0"
  {
    seq(k, _ => "0")
  }

  function PadGroups(groups: seq<string>): (padded: seq<string>)
    ensures |padded| == |groups|
    ensures forall i :: 0 <= i < |groups| ==> padded[i] == PadStart(groups[i], 4)
  {
    seq(|groups|, i requires 0 <= i < |groups| => PadStart(groups[i], 4))
  }

  function StripGroups(groups: seq<string>): (stripped: seq<string>)
    ensures |stripped| == |groups|
    ensures forall i :: 0 <= i < |groups| ==> stripped[i] == StripZeros(groups[i])
  {
    seq(|groups|, i requires 0 <= i < |groups| => StripZeros(groups[i]))
  }

  function ExpandIpv6(address: string): string
    requires IsIpv6(address)
  {
    Join(PadGroups(EightGroups(address)), ':')
  }

  // ---- the run of zero groups that is written "::"

  ghost predicate IsZeroRun(parts: seq<string>, start: int, length: int) {
    && 0 <= start && 0 <= length && start + length <= |parts|
    && forall i :: start <= i < start + length ==> parts[i] == "0"
  }

  /** (start, length) is the leftmost of the longest runs of zero groups in parts[..n]. */
  ghost predicate LeftmostLongest(parts: seq<string>, n: int, start: int, length: int) {
    && 0 <= n <= |parts|
    && IsZeroRun(parts, start, length) && start + length <= n
    && (forall s, l :: IsZeroRun(parts, s, l) && s + l <= n ==> l <= length)
    && (forall s :: 0 <= s < start ==> !IsZeroRun(parts, s, length))
  }

  function LeadingZeros(parts: seq<string>): (k: nat)
    ensures IsZeroRun(parts, 0, k) && (k < |parts| ==> parts[k] != "0")
  {
    if |parts| > 0 && parts[0] == "0" then
      var k := LeadingZeros(parts[1..]);
      assert forall i :: 1 <= i < k + 1 ==> parts[i] == parts[1..][i - 1];
      k + 1
    else 0
  }

  function BestRun(parts: seq<string>): (run: (nat, nat))
    ensures run.0 + run.1 <= |parts|
  {
    if |parts| == 0 then (0, 0)
    else
      var head, tail := LeadingZeros(parts), BestRun(parts[1..]);
      if head >= tail.1 then (0, head) else (tail.0 + 1, tail.1)
  }

  lemma {:induction false} BestRunIsLeftmostLongest(parts: seq<string>)
    ensures LeftmostLongest(parts, |parts|, BestRun(parts).0, BestRun(parts).1)
  {
    if |parts| > 0 {
      BestRunIsLeftmostLongest(parts[1..]);
      var rest, best := parts[1..], BestRun(parts);
      forall s, l | s >= 1
        ensures IsZeroRun(parts, s, l) <==> IsZeroRun(rest, s - 1, l)
      {
        RunInTail(parts, s, l);
      }
      assert forall l :: IsZeroRun(parts, 0, l) ==> l <= LeadingZeros(parts);
    }
  }

  lemma RunInTail(parts: seq<string>, s: int, l: int)
    requires |parts| > 0 && s >= 1
    ensures IsZeroRun(parts, s, l) <==> IsZeroRun(parts[1..], s - 1, l)
  {
  }

  lemma LeftmostLongestUnique(parts: seq<string>, s: int, l: int, t: int, m: int)
    requires LeftmostLongest(parts, |parts|, s, l) && LeftmostLongest(parts, |parts|, t, m)
    ensures l == m && s == t
  {
  }

  function Elide(parts: seq<string>, start: nat, length: nat): string
    requires start + length <= |parts|
  {
    Join(parts[..start], ':') + "::" + Join(parts[start + length..], ':')
  }

  function CompressGroups(parts: seq<string>): string {
    var run := BestRun(parts);
    if run.1 > 1 then Elide(parts, run.0, run.1) else Join(parts, ':')
  }

  function Compress(address: string): string {
    CompressGroups(StripGroups(Split(address, ':')))
  }

  lemma SkipGroup(parts: seq<string>, i: int, s: int, l: int)
    requires LeftmostLongest(parts, i, s, l)
    requires i < |parts| && parts[i] != "0"
    ensures LeftmostLongest(parts, i + 1, s, l)
  {
  }

  /** A maximal run that starts where the scan stands takes over only when it is strictly longer. */
  lemma CloseRun(parts: seq<string>, start: int, end: int, s: int, l: int)
    requires LeftmostLongest(parts, start, s, l)
    requires start < end && IsZeroRun(parts, start, end - start)
    requires start == 0 || parts[start - 1] != "0"
    ensures end - start > l ==> LeftmostLongest(parts, end, start, end - start)
    ensures end - start <= l ==> LeftmostLongest(parts, end, s, l)
  {
  }

  method FindRun(parts: seq<string>) returns (bestStart: int, bestLength: int)
    ensures bestLength > 0 ==> (bestStart, bestLength) == (BestRun(parts).0 as int, BestRun(parts).1 as int)
    ensures bestLength == 0 ==> BestRun(parts).1 == 0
    ensures bestLength >= 0
  {
    bestStart, bestLength := -1, 0;
    ghost var from := 0;
    var i := 0;
    while i < |parts|
      invariant 0 <= i <= |parts|
      invariant 0 < i < |parts| ==> parts[i] != "0" || parts[i - 1] != "0"
      invariant bestLength > 0 ==> from == bestStart
      invariant LeftmostLongest(parts, i, from, bestLength)
    {
      if parts[i] != "0" {
        SkipGroup(parts, i, from, bestLength);
        i := i + 1;
        continue;
      }
      var start := i;
      i := ScanRun(parts, start);
      CloseRun(parts, start, i, from, bestLength);
      if i - start > bestLength {
        bestStart, bestLength := start, i - start;
        from := start;
      }
    }
    BestRunIsLeftmostLongest(parts);
    LeftmostLongestUnique(parts, from, bestLength, BestRun(parts).0, BestRun(parts).1);
  }

  method ScanRun(parts: seq<string>, start: nat) returns (i: nat)
    requires start < |parts| && parts[start] == "0"
    ensures start < i <= |parts| && IsZeroRun(parts, start, i - start)
    ensures i < |parts| ==> parts[i] != "0"
  {
    i := start;
    while i < |parts| && parts[i] == "0"
      invariant start <= i <= |parts|
      invariant IsZeroRun(parts, start, i - start)
    {
      i := i + 1;
    }
  }

  method CompressIpv6(address: string) returns (text: string)
    ensures text == Compress(address)
  {
    var parts := StripGroups(Split(address, ':'));
    var bestStart, bestLength := FindRun(parts);
    if bestLength > 1 {
      return Elide(parts, bestStart, bestLength);
    }
    return Join(parts, ':');
  }

  // ---- the printer and the parser undo each other

  ghost predicate NoDouble(s: string) {
    forall i :: 0 <= i < |s| - 1 ==> s[i] != ':' || s[i + 1] != ':'
  }

  lemma {:induction false} SplitDoublePlain(s: string)
    requires NoDouble(s)
    ensures SplitDouble(s) == [s]
  {
    if |s| >= 2 {
      assert forall i :: 0 <= i < |s| - 1 ==> s[1..][i] == s[i + 1];
      SplitDoublePlain(s[1..]);
      assert [s[0]] + s[1..] == s;
    }
  }

  lemma {:induction false} SplitDoubleAt(l: string, r: string)
    requires NoDouble(l) && (l != "" ==> l[|l| - 1] != ':') && NoDouble(r)
    ensures SplitDouble(l + "::" + r) == [l, r]
  {
    var s := l + "::" + r;
    if l == "" {
      assert s[2..] == r;
      SplitDoublePlain(r);
    } else {
      assert s[1..] == l[1..] + "::" + r;
      assert s[0] != ':' || s[1] != ':';
      assert forall i :: 0 <= i < |l| - 1 ==> l[1..][i] == l[i + 1];
      SplitDoubleAt(l[1..], r);
      assert [l[0]] + l[1..] == l;
    }
  }

  ghost predicate Solid(parts: seq<string>) {
    forall i :: 0 <= i < |parts| ==> parts[i] != "" && ':' !in parts[i]
  }

  lemma {:induction false} JoinClean(parts: seq<string>)
    requires Solid(parts) && |parts| > 0
    ensures var s := Join(parts, ':'); s != "" && NoDouble(s) && s[0] != ':' && s[|s| - 1] != ':'
  {
    if |parts| > 1 {
      JoinClean(parts[1..]);
      var p, rest := parts[0], Join(parts[1..], ':');
      var s := p + [':'] + rest;
      assert s[|p|] == ':' && s[|p| - 1] == p[|p| - 1] && s[|p| + 1] == rest[0];
      assert s[|s| - 1] == rest[|rest| - 1];
      forall i | 0 <= i < |s| - 1
        ensures s[i] != ':' || s[i + 1] != ':'
      {
        if i > |p| {
          assert s[i] == rest[i - |p| - 1] && s[i + 1] == rest[i - |p|];
        }
      }
    }
  }

  lemma GroupsOfJoin(parts: seq<string>)
    requires Solid(parts)
    ensures GroupsOf(Join(parts, ':')) == parts
  {
    if |parts| > 0 {
      JoinClean(parts);
      SplitJoin(parts, ':');
    }
  }

  lemma CleanOrEmpty(parts: seq<string>)
    requires Solid(parts)
    ensures var s := Join(parts, ':'); NoDouble(s) && (s != "" ==> s[|s| - 1] != ':')
  {
  }

  lemma RefillRun(parts: seq<string>, start: nat, length: nat)
    requires start + length <= |parts| && IsZeroRun(parts, start, length)
    ensures parts[..start] + ZeroGroups(length) + parts[start + length..] == parts
  {
  }

  lemma SolidSides(parts: seq<string>, i: nat, j: nat)
    requires Solid(parts) && i <= |parts| && j <= |parts|
    ensures Solid(parts[..i]) && Solid(parts[j..])
  {
  }

  lemma ReadElided(parts: seq<string>, start: nat, length: nat)
    requires |parts| == 8 && Solid(parts)
    requires length > 1 && start + length <= |parts| && IsZeroRun(parts, start, length)
    ensures var text := Elide(parts, start, length);
      && |SplitDouble(text)| == 2
      && LeftGroups(text) == parts[..start] && RightGroups(text) == parts[start + length..]
      && EightGroups(text) == parts
  {
    hide Join, SplitDouble, NoDouble, GroupsOf, Solid, IsZeroRun;
    var left, right := parts[..start], parts[start + length..];
    SolidSides(parts, start, start + length);
    CleanOrEmpty(left);
    CleanOrEmpty(right);
    SplitDoubleAt(Join(left, ':'), Join(right, ':'));
    GroupsOfJoin(left);
    GroupsOfJoin(right);
    RefillRun(parts, start, length);
  }

  lemma ReadPlain(parts: seq<string>)
    requires |parts| == 8 && Solid(parts)
    ensures var text := Join(parts, ':');
      && |SplitDouble(text)| == 1
      && LeftGroups(text) == parts && RightGroups(text) == []
      && EightGroups(text) == parts
  {
    CleanOrEmpty(parts);
    SplitDoublePlain(Join(parts, ':'));
    GroupsOfJoin(parts);
    assert parts + ZeroGroups(0) + [] == parts;
  }

  /** Reading the compressed form gives back the stripped groups. */
  lemma ReadCompressed(parts: seq<string>)
    requires |parts| == 8 && Solid(parts)
    ensures var text := CompressGroups(parts);
      && |LeftGroups(text)| + |RightGroups(text)| <= 8
      && EightGroups(text) == parts
      && (AllHextets(parts) ==> IsIpv6(text))
  {
    var run := BestRun(parts);
    if run.1 > 1 {
      BestRunIsLeftmostLongest(parts);
      ReadElided(parts, run.0, run.1);
    } else {
      ReadPlain(parts);
    }
  }

  lemma PadHextet(g: string)
    requires IsHextet(g)
    ensures IsHextet(PadStart(g, 4)) && |PadStart(g, 4)| == 4
    ensures g != "" && ':' !in g
  {
  }

  lemma {:induction false} DropKeepsNumeral(g: string)
    requires IsNumeral(g, 16)
    ensures IsNumeral(DropZeros(g), 16)
  {
    if g != "" && g[0] == '0' {
      assert forall i :: 0 <= i < |g| - 1 ==> g[1..][i] == g[i + 1];
      DropKeepsNumeral(g[1..]);
    }
  }

  lemma StripHextet(g: string)
    requires IsHextet(g)
    ensures IsHextet(StripZeros(g)) && StripZeros(g) != "" && ':' !in StripZeros(g)
    ensures PadStart(StripZeros(g), 4) == PadStart(g, 4)
  {
    PadStrip(g, 4);
    DropKeepsNumeral(g);
    PadHextet(StripZeros(g));
  }

  /**
   * `expandIpv6(compressIpv6(h))` is h with every group padded to four digits, for every
   * address of eight hextets; the compressed text is again a valid address.
   */
  lemma ExpandCompress(groups: seq<string>)
    requires |groups| == 8 && AllHextets(groups)
    ensures var text := Compress(Join(groups, ':'));
      && IsIpv6(text)
      && EightGroups(text) == StripGroups(groups)
      && ExpandIpv6(text) == Join(PadGroups(groups), ':')
  {
    forall i | 0 <= i < 8
      ensures ':' !in groups[i] && IsHextet(StripGroups(groups)[i]) && StripGroups(groups)[i] != "" &&
        ':' !in StripGroups(groups)[i]
      ensures PadGroups(StripGroups(groups))[i] == PadGroups(groups)[i]
    {
      PadHextet(groups[i]);
      StripHextet(groups[i]);
    }
    SplitJoin(groups, ':');
    ReadCompressed(StripGroups(groups));
    assert PadGroups(StripGroups(groups)) == PadGroups(groups);
  }

  /** A group without leading zeros, and "0" for zero. */
  ghost predicate IsShortest(g: string) {
    g == "0" || (g != "" && g[0] != '0')
  }

  lemma {:induction false} DroppedHasNoZero(g: string)
    ensures DropZeros(g) != "" ==> DropZeros(g)[0] != '0'
  {
    if g != "" && g[0] == '0' {
      DroppedHasNoZero(g[1..]);
    }
  }

  /**
   * The compressed text of eight hextets writes each group without leading zeros and, if two or more consecutive
   * groups are zero, the leftmost longest run of them as a double colon (section 4.2 of RFC 5952).
   */
  lemma CompressedForm(groups: seq<string>) returns (parts: seq<string>, start: nat, length: nat)
    requires |groups| == 8 && AllHextets(groups)
    ensures |parts| == 8 && LeftmostLongest(parts, 8, start, length)
    ensures forall i :: 0 <= i < 8 ==> IsShortest(parts[i]) && PadStart(parts[i], 4) == PadStart(groups[i], 4)
    ensures Compress(Join(groups, ':')) ==
      if length >= 2 then Join(parts[..start], ':') + "::" + Join(parts[start + length..], ':') else Join(parts, ':')
  {
    hide DropZeros, PadStart, Join;
    parts := StripGroups(groups);
    start, length := BestRun(parts).0, BestRun(parts).1;
    BestRunIsLeftmostLongest(parts);
    forall i | 0 <= i < 8
      ensures IsShortest(parts[i]) && PadStart(parts[i], 4) == PadStart(groups[i], 4)
      ensures groups[i] != "" && ':' !in groups[i]
    {
      StripHextet(groups[i]);
      PadHextet(groups[i]);
      DroppedHasNoZero(groups[i]);
    }
    SplitJoin(groups, ':');
  }
}
