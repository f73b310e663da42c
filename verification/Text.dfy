/** Splitting, joining and numerals: the string operations that the address code is written in. */
module Text {
  import opened Arithmetic

  // ---- split and join

  function Split(s: string, sep: char): (parts: seq<string>)
    ensures |parts| >= 1
  {
    if s == "" then [""]
    else if s[0] == sep then [""] + Split(s[1..], sep)
    else
      var rest := Split(s[1..], sep);
      [[s[0]] + rest[0]] + rest[1..]
  }

  function Join(parts: seq<string>, sep: char): string {
    if |parts| == 0 then ""
    else if |parts| == 1 then parts[0]
    else parts[0] + [sep] + Join(parts[1..], sep)
  }

  function Concat(parts: seq<string>): string {
    if |parts| == 0 then "" else parts[0] + Concat(parts[1..])
  }

  /** `s.replace(/c/g, '')` */
  function Remove(s: string, c: char): string {
    if s == "" then "" else (if s[0] == c then "" else [s[0]]) + Remove(s[1..], c)
  }

  lemma ConcatAssoc(s: string, t: string, u: string)
    ensures s + t + u == s + (t + u)
  {
  }

  ghost predicate Free(parts: seq<string>, sep: char) {
    forall i :: 0 <= i < |parts| ==> sep !in parts[i]
  }

  lemma {:induction false} SplitFirst(s: string, t: string, sep: char)
    requires sep !in s
    ensures Split(s + [sep] + t, sep) == [s] + Split(t, sep)
  {
    var whole := s + [sep] + t;
    if s == "" {
      assert whole[1..] == t;
    } else {
      assert whole[1..] == s[1..] + [sep] + t;
      SplitFirst(s[1..], t, sep);
      assert [s[0]] + s[1..] == s;
    }
  }

  lemma {:induction false} SplitPlain(s: string, sep: char)
    requires sep !in s
    ensures Split(s, sep) == [s]
  {
    if s != "" {
      SplitPlain(s[1..], sep);
      assert [s[0]] + s[1..] == s;
    }
  }

  lemma {:induction false} SplitJoin(parts: seq<string>, sep: char)
    requires |parts| >= 1 && Free(parts, sep)
    ensures Split(Join(parts, sep), sep) == parts
  {
    if |parts| == 1 {
      SplitPlain(parts[0], sep);
    } else {
      SplitJoin(parts[1..], sep);
      SplitFirst(parts[0], Join(parts[1..], sep), sep);
    }
  }

  lemma {:induction false} RemoveAppend(s: string, t: string, c: char)
    ensures Remove(s + t, c) == Remove(s, c) + Remove(t, c)
  {
    if s == "" {
      assert s + t == t;
    } else {
      assert (s + t)[1..] == s[1..] + t;
      RemoveAppend(s[1..], t, c);
    }
  }

  lemma {:induction false} RemoveNothing(s: string, c: char)
    requires c !in s
    ensures Remove(s, c) == s
  {
    if s != "" {
      RemoveNothing(s[1..], c);
      assert [s[0]] + s[1..] == s;
    }
  }

  lemma {:induction false} RemoveSeparators(parts: seq<string>, sep: char)
    requires Free(parts, sep)
    ensures Remove(Join(parts, sep), sep) == Concat(parts)
  {
    if |parts| == 0 {
    } else if |parts| == 1 {
      RemoveNothing(parts[0], sep);
      assert parts[0] + "" == parts[0];
    } else {
      RemoveSeparators(parts[1..], sep);
      RemoveBetween(parts[0], Join(parts[1..], sep), sep);
    }
  }

  lemma RemoveBetween(s: string, t: string, c: char)
    requires c !in s
    ensures Remove(s + [c] + t, c) == s + Remove(t, c)
  {
    hide Remove;
    RemoveNothing(s, c);
    RemoveAppend(s + [c], t, c);
    RemoveAppend(s, [c], c);
    RemoveOnly(c);
    assert s + "" == s;
  }

  lemma RemoveOnly(c: char)
    ensures Remove([c], c) == ""
  {
  }

  // ---- numerals

  const DIGITS := "0123456789abcdef"

  function DigitChar(d: nat): char
    requires d < 16
  {
    DIGITS[d]
  }

  /** The value of one digit, in either case; 16 for any other character. */
  function DigitOf(c: char): (d: nat)
    ensures d <= 16
  {
    if '0' <= c <= '9' then (c - '0') as nat
    else if 'a' <= c <= 'f' then (c - 'a') as nat + 10
    else if 'A' <= c <= 'F' then (c - 'A') as nat + 10
    else 16
  }

  predicate IsNumeral(s: string, base: nat) {
    forall i :: 0 <= i < |s| ==> DigitOf(s[i]) < base
  }

  /** `parseInt(s, base)` of a numeral. */
  function ValueOf(s: string, base: nat): nat {
    if s == "" then 0 else ValueOf(s[..|s| - 1], base) * base + DigitOf(s[|s| - 1])
  }

  /** `n.toString(base)` */
  function ToText(n: nat, base: nat): string
    requires 2 <= base <= 16
    decreases n
  {
    if n < base then [DigitChar(n)]
    else
      assert n / base < n by { QuotientShrinks(n, base); }
      ToText(n / base, base) + [DigitChar(n % base)]
  }

  function Zeros(k: nat): (s: string)
    ensures |s| == k && forall i :: 0 <= i < k ==> s[i] == '0'
  {
    seq(k, _ => '0')
  }

  /** `s.padStart(width, '0')` */
  function PadStart(s: string, width: nat): string {
    if |s| >= width then s else Zeros(width - |s|) + s
  }

  /** `s.padEnd(width, '0')` */
  function PadEnd(s: string, width: nat): string {
    if |s| >= width then s else s + Zeros(width - |s|)
  }

  /** `s.replace(/^0+/, '') || '0'` */
  function StripZeros(s: string): string {
    var t := DropZeros(s);
    if t == "" then "0" else t
  }

  function DropZeros(s: string): (t: string)
    ensures |t| <= |s| && s == Zeros(|s| - |t|) + t
    ensures t != "" ==> t[0] != '0'
  {
    if s != "" && s[0] == '0' then DropZeros(s[1..]) else s
  }

  lemma DigitCharOf(d: nat)
    requires d < 16
    ensures DigitOf(DigitChar(d)) == d
    ensures DigitChar(d) == '0' <==> d == 0
  {
  }

  lemma ValueAppend(s: string, c: char, base: nat)
    ensures ValueOf(s + [c], base) == ValueOf(s, base) * base + DigitOf(c)
  {
  }

  lemma ValueOfDigit(c: char, base: nat)
    ensures ValueOf([c], base) == DigitOf(c)
  {
  }

  lemma {:induction false} ValueOfText(n: nat, base: nat)
    requires 2 <= base <= 16
    ensures ValueOf(ToText(n, base), base) == n
    ensures IsNumeral(ToText(n, base), base) && ToText(n, base) != ""
    ensures ToText(n, base)[0] == '0' ==> n == 0
    decreases n, 1
  {
    if n < base {
      DigitCharOf(n);
      ValueOfDigit(DigitChar(n), base);
    } else {
      QuotientShrinks(n, base);
      NumeralStep(n / base, n % base, base);
    }
  }

  lemma {:induction false} NumeralStep(q: nat, d: nat, base: nat)
    requires 2 <= base <= 16 && d < base && q >= 1
    ensures var s := ToText(q, base) + [DigitChar(d)];
      ValueOf(s, base) == q * base + d && IsNumeral(s, base) && s[0] != '0'
    decreases q, 2
  {
    ValueOfText(q, base);
    DigitCharOf(d);
    ValueAppend(ToText(q, base), DigitChar(d), base);
  }

  lemma {:induction false} ValueOfZeros(k: nat, s: string, base: nat)
    ensures ValueOf(Zeros(k) + s, base) == ValueOf(s, base)
    decreases |s| + k
  {
    if s == "" {
      assert Zeros(k) + s == Zeros(k);
      if k > 0 {
        ValueOfZeros(k - 1, "", base);
        assert Zeros(k - 1) + "" == Zeros(k)[..k - 1];
      }
    } else {
      ValueOfZeros(k, s[..|s| - 1], base);
      assert (Zeros(k) + s)[..k + |s| - 1] == Zeros(k) + s[..|s| - 1];
    }
  }

  lemma PadKeepsValue(s: string, width: nat, base: nat)
    ensures ValueOf(PadStart(s, width), base) == ValueOf(s, base)
  {
    if |s| < width {
      ValueOfZeros(width - |s|, s, base);
    }
  }

  /** Dropping leading zeros and padding again loses nothing. */
  lemma PadStrip(s: string, width: nat)
    requires 1 <= |s| <= width
    ensures PadStart(StripZeros(s), width) == PadStart(s, width)
    ensures 1 <= |StripZeros(s)| <= |s|
    ensures StripZeros(s) == "0" <==> s == Zeros(|s|)
  {
    var t := DropZeros(s);
    assert t == "" ==> s == Zeros(|s|);
    if t == "" {
      assert Zeros(width - 1) + "0" == Zeros(width);
      assert Zeros(width - |s|) + Zeros(|s|) == Zeros(width);
    } else {
      assert t[0] == s[|s| - |t|];
      assert Zeros(width - |s|) + (Zeros(|s| - |t|) + t) == Zeros(width - |t|) + t;
    }
  }

  // ---- positional values

  function Power(base: nat, k: nat): (r: nat)
    requires base >= 1
    ensures r >= 1
  {
    if k == 0 then 1 else
      var p := Power(base, k - 1);
      assert p * base >= 1 by { assert p * (base - 1) >= 0; }
      p * base
  }

  lemma {:induction false} ValueConcat(s: string, t: string, base: nat)
    requires base >= 1
    ensures ValueOf(s + t, base) == ValueOf(s, base) * Power(base, |t|) + ValueOf(t, base)
    decreases |t|
  {
    if t == "" {
      assert s + t == s;
    } else {
      var u := t[..|t| - 1];
      ValueConcat(s, u, base);
      assert (s + t)[..|s + t| - 1] == s + u;
      Regroup(ValueOf(s, base), Power(base, |u|), ValueOf(u, base), base);
    }
  }

  lemma {:induction false} ValueBound(s: string, base: nat)
    requires base >= 1 && IsNumeral(s, base)
    ensures ValueOf(s, base) < Power(base, |s|)
    decreases |s|
  {
    if s != "" {
      var t := s[..|s| - 1];
      ValueBound(t, base);
      StepBelow(ValueOf(t, base), Power(base, |t|), DigitOf(s[|s| - 1]), base);
    }
  }

  lemma {:induction false} TextLength(n: nat, base: nat, k: nat)
    requires 2 <= base <= 16 && k >= 1 && n < Power(base, k)
    ensures |ToText(n, base)| <= k
    decreases k
  {
    if n >= base {
      QuotientShrinks(n, base);
      assert Power(base, 1) == Power(base, 0) * base == base;
      QuotientBelow(n, base, Power(base, k - 1));
      TextLength(n / base, base, k - 1);
    }
  }

  lemma BinaryDigit(c: char)
    requires DigitOf(c) < 2
    ensures c == (if DigitOf(c) == 0 then '0' else '1')
  {
  }

  lemma LastChar(s: string)
    requires s != ""
    ensures s == s[..|s| - 1] + [s[|s| - 1]]
  {
  }

  lemma LastBit(s: string)
    requires s != "" && IsNumeral(s, 2)
    ensures IsNumeral(s[..|s| - 1], 2) && DigitOf(s[|s| - 1]) < 2
    ensures ValueOf(s, 2) == ValueOf(s[..|s| - 1], 2) * 2 + DigitOf(s[|s| - 1])
  {
  }

  /** Binary strings of equal length with equal values are equal. */
  lemma {:induction false} BinaryInjective(s: string, t: string)
    requires |s| == |t| && IsNumeral(s, 2) && IsNumeral(t, 2) && ValueOf(s, 2) == ValueOf(t, 2)
    ensures s == t
    decreases |s|
  {
    hide ValueOf, DigitOf, IsNumeral;
    if s != "" {
      var n := |s| - 1;
      LastBit(s);
      LastBit(t);
      BinaryDigit(s[n]);
      BinaryDigit(t[n]);
      BinaryInjective(s[..n], t[..n]);
      LastChar(s);
      LastChar(t);
    }
  }
}
