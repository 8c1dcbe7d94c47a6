/** Printing integers: io_putint and the integer directives of vprint. */
module Printing {
  import opened Common

  type Word = w: nat | w < 0x1_0000_0000
  type Int8 = i: int | -128 <= i < 128

  const DIGITS: string := "0123456789ABCDEFGHIJKLMNOPQRSTUVWXYZ"
  const BITS: nat := 32
  const INVALID: string := "radix invalid"

  /** The conversion to int8_t. */
  function Wrap8(i: int): Int8 {
    (i + 128) % 256 - 128
  }

  predicate ValidRadix(radix: nat) {
    2 <= radix <= 36
  }

  // ----- digits

  predicate Below(ds: seq<nat>, radix: nat) {
    forall i :: 0 <= i < |ds| ==> ds[i] < radix
  }

  /** The last digit of a number, and the number without it. */
  function LastDigit(n: nat, radix: nat): nat
    requires radix >= 2
  {
    n % radix
  }

  function Shorter(n: nat, radix: nat): nat
    requires radix >= 2
  {
    n / radix
  }

  /** The digits of a number, most significant first; none for 0. */
  function Digits(n: nat, radix: nat): (ds: seq<nat>)
    requires radix >= 2
    ensures Below(ds, radix)
  {
    if n == 0 then []
    else
      Smaller(n, radix);
      Digits(Shorter(n, radix), radix) + [LastDigit(n, radix)]
  }

  lemma Smaller(n: nat, radix: nat)
    requires radix >= 2
    ensures var (q, r) := (Shorter(n, radix), LastDigit(n, radix));
            && n == q * radix + r && r < radix && 2 * q <= n
            && (n > 0 ==> q < n) && (q == 0 ==> r == n)
  {
    var (q, r) := (n / radix, n % radix);
    Division(n, radix);
    Twice(q, radix);
  }

  lemma Division(n: nat, radix: nat)
    requires radix >= 2
    ensures n == n / radix * radix + n % radix && n % radix < radix
  {
  }

  lemma Twice(q: nat, radix: nat)
    requires radix >= 2
    ensures 2 * q <= q * radix && (q == 0 ==> q * radix == 0)
  {
    assert q * radix == 2 * q + q * (radix - 2);
  }

  function Value(ds: seq<nat>, radix: nat): nat {
    if ds == [] then 0 else Value(ds[..|ds| - 1], radix) * radix + ds[|ds| - 1]
  }

  /** What is shown for a number: its digits, or a single zero. */
  function Numeral(n: nat, radix: nat): (ds: seq<nat>)
    requires radix >= 2
  {
    if n == 0 then [0] else Digits(n, radix)
  }

  function Pow2(k: nat): (p: nat)
    ensures p > 0
  {
    if k == 0 then 1 else 2 * Pow2(k - 1)
  }

  /**
   The numeral denotes the number, has no superfluous leading zero, and needs no more
   digits than the number has bits.
   */
  lemma NumeralExact(n: nat, radix: nat)
    requires radix >= 2
    ensures var ds := Numeral(n, radix);
            && Value(ds, radix) == n && |ds| > 0
            && Below(ds, radix)
            && (|ds| > 1 ==> ds[0] != 0)
            && (forall k: nat :: 0 < k && n < Pow2(k) ==> |ds| <= k)
  {
    DigitsExact(n, radix);
    forall k: nat | 0 < k && n < Pow2(k)
      ensures |Numeral(n, radix)| <= k
    {
      DigitsFit(n, radix, k);
    }
    if n == 0 {
      assert Value([0], radix) == Value([], radix) * radix;
    }
  }

  lemma {:induction false} DigitsExact(n: nat, radix: nat)
    requires radix >= 2
    ensures var ds := Digits(n, radix);
            Value(ds, radix) == n && (n > 0 ==> |ds| > 0 && ds[0] != 0)
  {
    hide Shorter, LastDigit;
    if n > 0 {
      var q, r := Shorter(n, radix), LastDigit(n, radix);
      Smaller(n, radix);
      DigitsExact(q, radix);
      ValueAppend(Digits(q, radix), r, radix);
    }
  }

  lemma ValueAppend(ds: seq<nat>, d: nat, radix: nat)
    ensures Value(ds + [d], radix) == Value(ds, radix) * radix + d
  {
    assert (ds + [d])[..|ds|] == ds;
  }

  lemma {:induction false} DigitsFit(n: nat, radix: nat, k: nat)
    requires radix >= 2 && n < Pow2(k)
    ensures |Digits(n, radix)| <= k
  {
    hide Shorter, LastDigit;
    if n > 0 {
      Smaller(n, radix);
      DigitsFit(Shorter(n, radix), radix, k - 1);
    }
  }

  lemma WordFits(n: Word)
    ensures n < Pow2(BITS)
  {
    assert Pow2(8) == 256;
    assert Pow2(16) == 65536 by { assert Pow2(12) == 4096; }
    assert Pow2(24) == 65536 * 256 by { assert Pow2(20) == 65536 * 16; }
    assert Pow2(28) == 65536 * 4096;
  }

  function DigitChar(d: nat): char
    requires d < 36
  {
    if d < 10 then '0' + d as char else 'A' + (d - 10) as char
  }

  /** The entry of the table of digits. */
  function Symbol(d: nat): (c: char)
    requires d < 36
    ensures c == DigitChar(d)
  {
    DIGITS[d]
  }

  /** As characters; different digits look different. */
  function Chars(ds: seq<nat>): (s: string)
    requires Below(ds, 36)
    ensures |s| == |ds| && forall i :: 0 <= i < |s| ==> s[i] == DigitChar(ds[i])
  {
    seq(|ds|, i requires 0 <= i < |ds| => DigitChar(ds[i]))
  }

  /** The characters of a numeral determine the number. */
  lemma NumeralReadable(m: nat, n: nat, radix: nat)
    requires ValidRadix(radix) && ShowNumber(m, radix) == ShowNumber(n, radix)
    ensures m == n
  {
    var ds, es := Numeral(m, radix), Numeral(n, radix);
    NumeralExact(m, radix);
    NumeralExact(n, radix);
    SameChars(ds, es);
  }

  lemma SameChars(ds: seq<nat>, es: seq<nat>)
    requires Below(ds, 36) && Below(es, 36) && Chars(ds) == Chars(es)
    ensures ds == es
  {
    forall i | 0 <= i < |ds|
      ensures ds[i] == es[i]
    {
      assert DigitChar(ds[i]) == Chars(ds)[i] == Chars(es)[i] == DigitChar(es[i]);
    }
  }

  function ShowNumber(n: nat, radix: nat): string
    requires ValidRadix(radix)
  {
    NumeralExact(n, radix);
    Chars(Numeral(n, radix))
  }

  // ----- padding

  function Padding(count: int, c: char): string {
    seq(if count > 0 then count else 0, _ => c)
  }

  /** Number of padding characters: the wanted width less the digits, in 8-bit arithmetic. */
  function PadCount(pad: Int8, digits: nat): nat {
    var left := Wrap8(pad - digits);
    if left > 0 then left else 0
  }

  /** It is what was meant exactly as long as the subtraction does not wrap. */
  lemma PadExact(pad: Int8, digits: nat)
    requires 0 < digits <= BITS
    ensures PadCount(pad, digits) == (if pad > digits then pad - digits else 0) <==> pad - digits >= -128
  {
  }

  /** All of io_putint's output. */
  function ShowInt(n: nat, radix: nat, pad: Int8, padChar: char): string {
    if ValidRadix(radix) then Padding(PadCount(pad, |Numeral(n, radix)|), padChar) + ShowNumber(n, radix)
    else INVALID
  }

  // ----- signed numbers

  function Signed(w: Word): int {
    if w >= 0x8000_0000 then w - WORD else w
  }

  function Negate(w: Word): Word {
    (WORD - w) % WORD
  }

  /** The number shown after the sign is the magnitude of the signed value, that of -2^31 included. */
  lemma NegateExact(w: Word)
    ensures Signed(w) < 0 ==> Negate(w) == -Signed(w)
    ensures Signed(w) < 0 <==> w / 0x8000_0000 % 2 == 1
  {
  }

  function ShowSigned(w: Word, pad: Int8, padChar: char): string {
    if Signed(w) < 0 then "-" + ShowInt(-Signed(w), 10, Wrap8(pad - 1), padChar)
    else ShowInt(Signed(w), 10, pad, padChar)
  }

  // ----- directives

  predicate IsDigit(c: char) {
    '0' <= c <= '9'
  }

  function Decimal(s: string): nat {
    if s == "" then 0
    else Decimal(s[..|s| - 1]) * 10 + if IsDigit(s[|s| - 1]) then (s[|s| - 1] - '0') as nat else 0
  }

  function RadixOf(c: char): nat {
    match c
    case 'd' => 10
    case 'u' => 10
    case 'x' => 16
    case 'b' => 2
    case 'o' => 8
    case _ => 0
  }

  /** What a directive with a given width prints for an argument. */
  function ShowDirective(conversion: char, w: Word, pad: Int8, padChar: char): string
    requires RadixOf(conversion) != 0
  {
    if conversion == 'd' then ShowSigned(w, pad, padChar) else ShowInt(w, RadixOf(conversion), pad, padChar)
  }

  // ----- how it reads

  /** What a digit stands for to a reader. */
  function DigitValue(c: char): nat {
    if '0' <= c <= '9' then (c - '0') as nat
    else if 'A' <= c <= 'Z' then (c - 'A') as nat + 10 else 36
  }

  /** The number a reader sees in a string of digits. */
  function ReadNumber(s: string, radix: nat): nat {
    if s == "" then 0 else ReadNumber(s[..|s| - 1], radix) * radix + DigitValue(s[|s| - 1])
  }

  /** Behind k characters of padding the string is the number n to the given base, without leading zeros. */
  ghost predicate ReadsAs(s: string, k: nat, padChar: char, n: nat, radix: nat) {
    && k < |s| && (forall i :: 0 <= i < k ==> s[i] == padChar)
    && (forall i :: k <= i < |s| ==> DigitValue(s[i]) < radix)
    && ReadNumber(s[k..], radix) == n && (s[k] == '0' ==> k + 1 == |s|)
  }

  /** The number, filled up to the width as long as the 8-bit difference of width and digits is positive. */
  ghost predicate Shown(s: string, n: nat, radix: nat, pad: int, padChar: char) {
    exists k :: 0 <= k < |s| && ReadsAs(s, k, padChar, n, radix) && k == Max8(pad - (|s| - k))
  }

  /** A difference in 8-bit arithmetic, nothing if it is negative. */
  function Max8(i: int): nat {
    var j := i % 256;
    if j < 128 then j else 0
  }

  lemma {:induction false} ReadChars(ds: seq<nat>, radix: nat)
    requires Below(ds, 36)
    ensures ReadNumber(Chars(ds), radix) == Value(ds, radix)
  {
    if ds != [] {
      var init := ds[..|ds| - 1];
      ReadChars(init, radix);
      assert Chars(ds)[..|ds| - 1] == Chars(init);
    }
  }

  /** What io_putint prints reads as the number. */
  lemma ShowIntReads(n: nat, radix: nat, pad: Int8, padChar: char)
    requires 2 <= radix <= 36
    ensures Shown(ShowInt(n, radix, pad, padChar), n, radix, pad, padChar)
  {
    var ds := Numeral(n, radix);
    ShowIntIs(n, radix, pad, padChar);
    hide Numeral, Value, Pow2, ReadNumber, Digits, PadCount, Chars, ReadsAs, Padding, DigitChar, ShowInt, Max8;
    ReadChars(ds, radix);
    ReadsPadded(ds, PadCount(pad, |ds|), padChar, n, radix);
    PadLeft(pad, |ds|);
    PaddingSize(PadCount(pad, |ds|), padChar);
  }

  lemma ShowIntIs(n: nat, radix: nat, pad: Int8, padChar: char)
    requires 2 <= radix <= 36
    ensures var ds := Numeral(n, radix);
            && Below(ds, 36) && ShowInt(n, radix, pad, padChar) == Padding(PadCount(pad, |ds|), padChar) + Chars(ds)
            && Below(ds, radix) && Value(ds, radix) == n && ds != [] && (|ds| > 1 ==> ds[0] != 0)
  {
    hide Numeral, PadCount, Chars, Padding, Value, Pow2;
    NumeralExact(n, radix);
  }

  lemma PaddingSize(k: nat, c: char)
    ensures |Padding(k, c)| == k
  {
  }

  lemma PadLeft(pad: Int8, digits: nat)
    ensures PadCount(pad, digits) == Max8(pad - digits)
  {
  }

  lemma ReadsPadded(ds: seq<nat>, k: nat, padChar: char, n: nat, radix: nat)
    requires Below(ds, 36) && Below(ds, radix) && ds != [] && (|ds| > 1 ==> ds[0] != 0)
    requires ReadNumber(Chars(ds), radix) == n
    ensures ReadsAs(Padding(k, padChar) + Chars(ds), k, padChar, n, radix)
  {
    hide ReadNumber, DigitChar, DigitValue;
    var s, c := Padding(k, padChar) + Chars(ds), Chars(ds);
    assert s[k..] == c;
    forall i | k <= i < |s|
      ensures DigitValue(s[i]) < radix && (s[i] == '0' ==> ds[i - k] == 0)
    {
      assert s[i] == DigitChar(ds[i - k]);
      DigitReads(ds[i - k]);
    }
  }

  lemma DigitReads(d: nat)
    requires d < 36
    ensures DigitValue(DigitChar(d)) == d && (DigitChar(d) == '0' ==> d == 0)
  {
  }

  /** What each directive prints; %d puts the sign before the padding. */
  ghost predicate Printed(s: string, conversion: char, w: Word, pad: int, padChar: char) {
    && (conversion == 'x' ==> Shown(s, w, 16, pad, padChar))
    && (conversion == 'o' ==> Shown(s, w, 8, pad, padChar))
    && (conversion == 'b' ==> Shown(s, w, 2, pad, padChar))
    && (conversion == 'u' ==> Shown(s, w, 10, pad, padChar))
    && (conversion == 'd' ==>
          if w < 0x8000_0000 then Shown(s, w, 10, pad, padChar)
          else s != "" && s[0] == '-' && Shown(s[1..], 0x1_0000_0000 - w, 10, pad - 1, padChar))
  }

  /** A width counts modulo 256. */
  lemma DirectiveExact(conversion: char, w: Word, width: int, padChar: char)
    requires conversion in "duxbo" && RadixOf(conversion) != 0
    ensures Printed(ShowDirective(conversion, w, Wrap8(width), padChar), conversion, w, width, padChar)
  {
    hide ShowInt, Shown;
    var pad: int := Wrap8(width);
    Modulo(width, 0);
    var s := ShowInt(w, RadixOf(conversion), pad, padChar);
    ShowIntReads(w, RadixOf(conversion), pad, padChar);
    SameWidth(s, w, RadixOf(conversion), pad, width, padChar);
    if conversion == 'd' && w >= 0x8000_0000 {
      var s := ShowInt(WORD - w, 10, Wrap8(pad - 1), padChar);
      assert ("-" + s)[1..] == s;
      ShowIntReads(WORD - w, 10, Wrap8(pad - 1), padChar);
      Modulo(pad - 1, 0);
      Modulo(width, 1);
      SameWidth(s, WORD - w, 10, Wrap8(pad - 1), width - 1, padChar);
    }
  }

  lemma SameWidth(s: string, n: nat, radix: nat, pad: int, pad': int, padChar: char)
    requires Shown(s, n, radix, pad, padChar) && pad % 256 == pad' % 256
    ensures Shown(s, n, radix, pad', padChar)
  {
    hide ReadsAs;
    var k :| 0 <= k < |s| && ReadsAs(s, k, padChar, n, radix) && k == Max8(pad - (|s| - k));
    SameRest(pad, pad', |s| - k);
  }

  lemma SameRest(a: int, b: int, c: int)
    requires a % 256 == b % 256
    ensures (a - c) % 256 == (b - c) % 256
  {
    assert a - c == b - c + (a / 256 - b / 256) * 256;
  }

  lemma Modulo(a: int, b: int)
    ensures (Wrap8(a) - b) % 256 == (a - b) % 256
  {
    assert a == Wrap8(a) + (a + 128) / 256 * 256;
    assert a - b == Wrap8(a) - b + (a + 128) / 256 * 256;
  }

  lemma {:induction false} ReadsDecimal(s: string)
    requires forall i :: 0 <= i < |s| ==> '0' <= s[i] <= '9'
    ensures Decimal(s) == ReadNumber(s, 10)
  {
    if s != "" {
      ReadsDecimal(s[..|s| - 1]);
    }
  }

  // ----- the functions as they run

  class Console {
    var output: string

    constructor ()
      ensures output == ""
    {
      output := "";
    }

    method PutChar(c: char) returns (count: nat)
      modifies this
      ensures output == old(output) + [c] && count == 1
    {
      output := output + [c];
      count := 1;
    }

    /** io_putstr of the string in a buffer from an index on, up to its terminator. */
    method PutStr(buf: array<char>, start: nat, ghost end: nat) returns (count: nat)
      requires start <= end < buf.Length && buf[end] == '\0' && forall i :: start <= i < end ==> buf[i] != '\0'
      modifies this
      ensures output == old(output) + buf[start..end] && count == end - start
    {
      count := 0;
      var i := start;
      while buf[i] != '\0'
        invariant start <= i <= end && count == i - start
        invariant output == old(output) + buf[start..i]
        decreases end - i
      {
        var n := PutChar(buf[i]);
        count := count + n;
        i := i + 1;
      }
    }

    method PutInvalid() returns (count: nat)
      modifies this
      ensures output == old(output) + INVALID && count == |INVALID|
    {
      count := 0;
      for i := 0 to |INVALID|
        invariant output == old(output) + INVALID[..i] && count == i
      {
        var n := PutChar(INVALID[i]);
        count := count + n;
      }
    }

    /**
     The conversion loop of io_putint: fills a fresh buffer from its end with the numeral
     and a terminator, never leaving it; cur ends just before the first digit.
     */
    method Convert(n: Word, radix: nat, pad: Int8) returns (buf: array<char>, cur: int, left: Int8)
      requires ValidRadix(radix)
      ensures fresh(buf) && buf.Length == BITS + 1 && -1 <= cur < BITS - 1 && buf[BITS] == '\0'
      ensures buf[cur + 1..BITS] == ShowNumber(n, radix)
      ensures left == Wrap8(pad - |Numeral(n, radix)|)
    {
      hide Wrap8, Digits, Chars, Pow2, Value, DigitChar, Symbol, Shorter, LastDigit, Numeral, ShowNumber;
      buf := new char[BITS + 1];
      cur := BITS;
      buf[cur] := '\0';
      cur := cur - 1;
      left := pad;
      WrapNothing(pad);
      ghost var ds := Numeral(n, radix);
      ShowsDigits(n, radix);
      if n == 0 {
        buf[cur] := '0';
        cur := cur - 1;
        left := Wrap8(left - 1);
        assert buf[cur + 1..BITS] == ['0'];
        return;
      }
      ghost var k := |ds|;
      assert ds[..k] == ds && ds[k..] == [];
      NoChars();
      var rest: nat := n;
      while rest != 0
        invariant 0 <= k <= |ds| && cur == BITS - 1 - (|ds| - k) && buf[BITS] == '\0'
        invariant Digits(rest, radix) == ds[..k]
        invariant buf[cur + 1..BITS] == Chars(ds[k..])
        invariant left == Wrap8(pad - (|ds| - k))
        decreases rest
      {
        NextDigit(rest, radix, ds, k);
        var d := LastDigit(rest, radix);
        ghost var behind := buf[cur + 1..BITS];
        buf[cur] := Symbol(d);
        assert buf[cur..BITS] == [DigitChar(d)] + behind;
        CharsFront(ds, k - 1);
        WrapTwice(pad, |ds| - k);
        cur := cur - 1;
        left := Wrap8(left - 1);
        rest := Shorter(rest, radix);
        k := k - 1;
      }
      NoDigits(radix);
      assert k == 0 && ds[0..] == ds;
    }

    lemma CharsFront(ds: seq<nat>, k: nat)
      requires Below(ds, 36) && k < |ds|
      ensures Chars(ds[k..]) == [DigitChar(ds[k])] + Chars(ds[k + 1..])
    {
    }

    lemma NoChars()
      ensures Chars([]) == ""
    {
    }

    /** The numeral fits into the buffer; for 0 it is one zero, for other numbers the digits. */
    lemma ShowsDigits(n: Word, radix: nat)
      requires ValidRadix(radix)
      ensures var ds := Numeral(n, radix);
              && 0 < |ds| <= BITS && Below(ds, 36) && ShowNumber(n, radix) == Chars(ds)
              && if n == 0 then |ds| == 1 && Chars(ds) == ['0'] else Digits(n, radix) == ds
    {
      hide Digits, Chars, Pow2, Value;
      NumeralExact(n, radix);
      WordFits(n);
      OneZero();
    }

    /** With k digits left the last digit is the one at k - 1. */
    lemma NextDigit(n: nat, radix: nat, ds: seq<nat>, k: nat)
      requires ValidRadix(radix) && 0 < n && k <= |ds| && Digits(n, radix) == ds[..k]
      ensures k > 0 && Shorter(n, radix) < n && LastDigit(n, radix) < radix
      ensures LastDigit(n, radix) == ds[k - 1] && Digits(Shorter(n, radix), radix) == ds[..k - 1]
    {
      hide Shorter, LastDigit, Digits;
      OneDigit(n, radix);
      var init := Digits(Shorter(n, radix), radix);
      assert |init| + 1 == k && ds[..k][..k - 1] == init && ds[..k][k - 1] == LastDigit(n, radix);
    }

    lemma OneDigit(n: nat, radix: nat)
      requires ValidRadix(radix) && 0 < n
      ensures Shorter(n, radix) < n && LastDigit(n, radix) < radix
      ensures Digits(n, radix) == Digits(Shorter(n, radix), radix) + [LastDigit(n, radix)]
    {
      hide Shorter, LastDigit;
      Smaller(n, radix);
    }

    lemma OneZero()
      ensures Chars([0]) == ['0']
    {
    }

    lemma NoDigits(radix: nat)
      requires ValidRadix(radix)
      ensures Digits(0, radix) == []
    {
    }

    lemma WrapNothing(pad: Int8)
      ensures Wrap8(pad) == pad && Wrap8(pad - 0) == pad
    {
    }

    lemma WrapTwice(pad: Int8, k: nat)
      ensures Wrap8(Wrap8(pad - k) - 1) == Wrap8(pad - (k + 1))
    {
      var m := (pad - k + 128) / 256;
      assert Wrap8(pad - k) == pad - k - 256 * m;
      Shift(pad - k - 1, m);
    }

    method PutPadding(pad: Int8, padChar: char) returns (count: nat)
      modifies this
      ensures output == old(output) + Padding(pad, padChar) && count == |Padding(pad, padChar)|
    {
      count := 0;
      var left := pad;
      while left > 0
        invariant left <= pad && (pad > 0 ==> left >= 0) && (pad <= 0 ==> left == pad) && count == pad - left
        invariant output == old(output) + Padding(pad - left, padChar)
      {
        assert Padding(pad - left + 1, padChar) == Padding(pad - left, padChar) + [padChar];
        var n := PutChar(padChar);
        count := count + n;
        left := left - 1;
      }
      assert Padding(pad, padChar) == Padding(pad - left, padChar);
    }

    /** io_putint. */
    method PutInt(n: Word, radix: nat, pad: Int8, padChar: char) returns (count: nat)
      modifies this
      ensures output == old(output) + ShowInt(n, radix, pad, padChar)
      ensures count == |ShowInt(n, radix, pad, padChar)|
      ensures radix < 2 || radix > 36 ==> output == old(output) + "radix invalid" && count == 13
    {
      hide PadCount, Numeral, ShowNumber, Padding;
      if radix < 2 || radix > 36 {
        count := PutInvalid();
        return;
      }
      count := PutNumber(n, radix, pad, padChar);
    }

    method PutNumber(n: Word, radix: nat, pad: Int8, padChar: char) returns (count: nat)
      requires ValidRadix(radix)
      modifies this
      ensures var padding := Padding(PadCount(pad, |Numeral(n, radix)|), padChar);
              && output == old(output) + (padding + ShowNumber(n, radix))
              && count == |padding + ShowNumber(n, radix)|
    {
      hide Wrap8, Numeral, ShowNumber, Padding;
      var buf, cur, left := Convert(n, radix, pad);
      PaddingLeft(left, padChar);
      count := PutPadding(left, padChar);
      Printable(n, radix);
      assert forall i :: cur + 1 <= i < BITS ==> buf[i] == ShowNumber(n, radix)[i - (cur + 1)];
      var shown := PutStr(buf, cur + 1, BITS);
      count := count + shown;
    }

    lemma PaddingLeft(left: Int8, c: char)
      ensures Padding(left, c) == Padding(if left > 0 then left else 0, c)
    {
    }

    lemma Printable(n: nat, radix: nat)
      requires ValidRadix(radix)
      ensures forall i :: 0 <= i < |ShowNumber(n, radix)| ==> ShowNumber(n, radix)[i] != '\0'
    {
      NumeralExact(n, radix);
    }

    /** The case of %d; the sign is printed before the padding and is not counted. */
    method PutSigned(w: Word, pad: Int8, padChar: char) returns (count: nat)
      modifies this
      ensures output == old(output) + ShowSigned(w, pad, padChar)
      ensures count == |ShowSigned(w, pad, padChar)| - if Signed(w) < 0 then 1 else 0
    {
      hide ShowInt, Wrap8;
      NegateExact(w);
      if w / 0x8000_0000 % 2 == 1 {
        var n := PutChar('-');
        count := PutInt(Negate(w), 10, Wrap8(pad - 1), padChar);
      } else {
        count := PutInt(w, 10, pad, padChar);
      }
    }

    lemma PadStep(a: nat, d: nat)
      ensures Wrap8(Wrap8(a) * 10 + d) == Wrap8(a * 10 + d)
    {
      var k := (a + 128) / 256;
      assert Wrap8(a) == a - 256 * k;
      Shift(a * 10 + d, 10 * k);
    }

    lemma Shift(x: int, k: int)
      ensures Wrap8(x - 256 * k) == Wrap8(x)
    {
      assert x - 256 * k + 128 == 256 * ((x + 128) / 256 - k) + (x + 128) % 256;
    }

    lemma NoWidth()
      ensures Wrap8(Decimal("")) == 0
    {
    }

    lemma OneMore(s: string, c: char)
      requires IsDigit(c)
      ensures Decimal(s + [c]) == Decimal(s) * 10 + (c - '0') as nat
    {
    }

    /** The loop of vprint over the digits of a width, in 8-bit arithmetic. */
    method ReadWidth(fmt: string, start: nat) returns (pad: Int8, cur: nat)
      requires exists i :: start <= i < |fmt| && !('0' <= fmt[i] <= '9')
      ensures start <= cur < |fmt| && !('0' <= fmt[cur] <= '9') && forall j :: start <= j < cur ==> '0' <= fmt[j] <= '9'
      ensures pad == Wrap8(Decimal(fmt[start..cur]))
    {
      hide Wrap8, Decimal;
      NoWidth();
      pad := 0;
      cur := start;
      assert fmt[start..cur] == "";
      while IsDigit(fmt[cur])
        invariant start <= cur < |fmt| && forall j :: start <= j < cur ==> IsDigit(fmt[j])
        invariant pad == Wrap8(Decimal(fmt[start..cur]))
        decreases |fmt| - cur
      {
        PadStep(Decimal(fmt[start..cur]), (fmt[cur] - '0') as nat);
        OneMore(fmt[start..cur], fmt[cur]);
        assert fmt[start..cur + 1] == fmt[start..cur] + [fmt[cur]];
        pad := Wrap8(pad * 10 + (fmt[cur] - '0') as int);
        cur := cur + 1;
      }
    }

    /**
     One directive of vprint, from behind its percent sign: a zero flag, a width and a
     conversion, which ends at the given position.
     */
    method Directive(fmt: string, start: nat, ghost end: nat, w: Word) returns (count: nat, next: nat)
      requires start <= end < |fmt| && fmt[end] in "duxbo" && forall i :: start <= i < end ==> '0' <= fmt[i] <= '9'
      modifies this
      ensures next == end + 1
      ensures var zero := if fmt[start] == '0' then 1 else 0;
              && start + zero <= end
              && output == old(output) + ShowDirective(fmt[end], w, Wrap8(Decimal(fmt[start + zero..end])),
                                                       if zero == 1 then '0' else ' ')
      ensures var zero := if fmt[start] == '0' then 1 else 0;
              && |old(output)| <= |output| && start + zero <= end
              && Printed(output[|old(output)|..], fmt[end], w, ReadNumber(fmt[start + zero..end], 10),
                         if zero == 1 then '0' else ' ')
      ensures count == |output| - |old(output)| - if fmt[end] == 'd' && w >= 0x8000_0000 then 1 else 0
    {
      hide Wrap8, ShowInt, ShowSigned, Decimal, Printed;
      var cur, padChar := start, ' ';
      assert !IsDigit(fmt[end]);
      if fmt[cur] == '0' {
        padChar := '0';
        cur := cur + 1;
      }
      ghost var first := cur;
      var pad;
      pad, cur := ReadWidth(fmt, cur);
      ReadsDecimal(fmt[first..end]);
      DirectiveExact(fmt[end], w, Decimal(fmt[first..end]), padChar);
      ghost var before := output;
      match fmt[cur] {
        case 'd' => count := PutSigned(w, pad, padChar);
        case 'u' => count := PutInt(w, 10, pad, padChar);
        case 'x' => count := PutInt(w, 16, pad, padChar);
        case 'b' => count := PutInt(w, 2, pad, padChar);
        case 'o' => count := PutInt(w, 8, pad, padChar);
      }
      assert output[|before|..] == ShowDirective(fmt[end], w, pad, padChar);
      next := cur + 1;
    }
  }
}
