/** The string routines of DriverShared/Rtl/string.c. A C string is the sequence of its characters up
  * to, and without, the terminating zero. */
module RtlString {
  import opened Words

  predicate IsCString(s: string) {
    '\0' !in s
  }

  // ---------- hexadecimal numerals ----------

  const LLONG_MAX: int := 0x7FFF_FFFF_FFFF_FFFF

  predicate IsHex(c: char) {
    'a' <= c <= 'f' || 'A' <= c <= 'F' || '0' <= c <= '9'
  }

  function HexDigit(c: char): (d: nat)
    requires IsHex(c)
    ensures d < 16
  {
    if 'a' <= c <= 'f' then c as int - 'a' as int + 10
    else if 'A' <= c <= 'F' then c as int - 'A' as int + 10
    else c as int - '0' as int
  }

  predicate AllHex(s: string) {
    forall i | 0 <= i < |s| :: IsHex(s[i])
  }

  /** The number that a hexadecimal numeral denotes. */
  function HexValue(s: string): (v: nat)
    requires AllHex(s)
  {
    if s == "" then 0 else 16 * HexValue(s[..|s| - 1]) + HexDigit(s[|s| - 1])
  }

  function Pow16(n: nat): (r: nat)
    ensures r > 0
  {
    if n == 0 then 1 else 16 * Pow16(n - 1)
  }

  lemma {:induction false} HexValuePrefix(s: string, i: nat)
    requires AllHex(s) && i <= |s|
    ensures HexValue(s[..i]) <= HexValue(s)
  {
    if i < |s| {
      HexValuePrefix(s[..|s| - 1], i);
      assert s[..|s| - 1][..i] == s[..i];
    } else {
      assert s[..i] == s;
    }
  }

  function LowerDigit(d: nat): (c: char)
    requires d < 16
    ensures IsHex(c) && HexDigit(c) == d
  {
    "0123456789abcdef"[d]
  }

  /** printf's "%I64x": lower case, no leading zeros. */
  function HexText(v: nat): (s: string)
    ensures AllHex(s) && s != "" && HexValue(s) == v
    ensures v < Pow16(8) ==> |s| <= 8
  {
    HexTextLength(v, 8);
    HexTextOf(v)
  }

  function HexTextOf(v: nat): (s: string)
    ensures AllHex(s) && s != "" && HexValue(s) == v
  {
    if v < 16 then [LowerDigit(v)]
    else
      var s := HexTextOf(v / 16) + [LowerDigit(v % 16)];
      assert s[..|s| - 1] == HexTextOf(v / 16);
      s
  }

  lemma {:induction false} HexTextLength(v: nat, n: nat)
    requires n > 0
    ensures v < Pow16(n) ==> |HexTextOf(v)| <= n
    decreases n
  {
    if v >= 16 && n > 1 {
      HexTextLength(v / 16, n - 1);
    } else if n == 1 {
      assert Pow16(1) == 16;
    }
  }

  // ---------- searching and cutting ----------

  method RtlAnsiIndexOf(inString: string, inChar: char) returns (r: int)
    requires IsCString(inString)
    ensures r == -1 <==> inChar !in inString
    ensures r != -1 ==> 0 <= r < |inString| && inString[r] == inChar && inChar !in inString[..r]
  {
    var index := 0;
    while index < |inString|
      invariant 0 <= index <= |inString|
      invariant inChar !in inString[..index]
    {
      if inString[index] == inChar {
        return index;
      }
      index := index + 1;
    }
    return -1;
  }

  /** The end of the requested range, as the ULONG addition computes it. */
  function Limit(offset: u32, count: u32): (r: u32) {
    (offset + count) % TWO_32
  }

  /** The range [offset, limit) is cut out only if a character follows it and it is not longer than allowed. A range
    * that fills the buffer makes the source write the terminator behind its end, which `past` reports instead. */
  method RtlAnsiSubString(inString: string, inOffset: u32, inCount: u32, inTarget: array<char>, inTargetMaxLen: nat)
    returns (r: int, past: bool)
    requires IsCString(inString) && inTargetMaxLen <= inTarget.Length
    modifies inTarget
    ensures r == -1 || r >= 0
    ensures var limit := Limit(inOffset, inCount);
            r != -1 <==> limit < |inString| && limit - inOffset <= inTargetMaxLen
    ensures past <==> r != -1 && r == inTarget.Length
    ensures r != -1 ==>
              var limit := Limit(inOffset, inCount);
              var lo := if limit < inOffset then limit else inOffset;
              && r == limit - lo <= inTarget.Length && inTarget[..r] == inString[lo..limit]
              && (!past ==> inTarget[r] == '\0')
  {
    var limit := Limit(inOffset, inCount);
    var index, result := 0, 0;
    past := false;
    while index < |inString|
      invariant 0 <= index <= |inString| && !past
      invariant index <= limit || index == 0
      invariant result == if index > inOffset then index - inOffset else 0
      invariant 0 <= result <= inTargetMaxLen
      invariant index > inOffset ==> inTarget[..result] == inString[inOffset..index]
    {
      if index >= limit {
        if result < inTarget.Length {
          inTarget[result] := '\0';
        } else {
          past := true;
        }
        return result, past;
      }
      if index >= inOffset {
        result := result + 1;
        if inTargetMaxLen < result {
          return -1, false;
        }
        inTarget[result - 1] := inString[index];
      }
      index := index + 1;
    }
    return -1, false;
  }

  // ---------- parsing ----------

  /** The characters RtlAnsiHexToLongLong looks at: at most `len`, without a leading 0x. */
  function Numeral(s: string, len: nat): (d: string) {
    var lo := if HasRadixPrefix(s) then 2 else 0;
    var hi := if |s| <= len then |s| else len;
    if lo <= hi then s[lo..hi] else ""
  }

  predicate HasRadixPrefix(s: string) {
    |s| >= 2 && s[0] == '0' && (s[1] == 'x' || s[1] == 'X')
  }

  /** The longest hexadecimal prefix. */
  function LeadingHex(s: string): (r: string)
    ensures AllHex(r) && r <= s && (r == s || !IsHex(s[|r|]))
  {
    if s == "" || !IsHex(s[0]) then "" else [s[0]] + LeadingHex(s[1..])
  }

  /** A numeral is read up to its first foreign character, which makes the result 0 unless the value has
    * left the range before; values out of range saturate at LLONG_MAX. */
  function Parsed(d: string): (v: nat) {
    var h := LeadingHex(d);
    if HexValue(h) > LLONG_MAX then LLONG_MAX
    else if h != d then 0
    else HexValue(d)
  }

  lemma LeadingHexOfHex(s: string)
    requires AllHex(s)
    ensures LeadingHex(s) == s
  {
  }

  lemma {:induction false} PrefixInLeadingHex(s: string, i: nat)
    requires i <= |s| && AllHex(s[..i])
    ensures s[..i] <= LeadingHex(s) && HexValue(s[..i]) <= HexValue(LeadingHex(s))
  {
    var h := LeadingHex(s);
    assert forall j | 0 <= j < i :: s[..i][j] == s[j] && IsHex(s[j]);
    assert h[..i] == s[..i];
    HexValuePrefix(h, i);
  }

  method RtlAnsiHexToLongLong(s: string, len: nat) returns (rc: int)
    requires IsCString(s)
    ensures rc == Parsed(Numeral(s, len))
  {
    var start := 0;
    if |s| >= 2 && '0' == s[0] && ('x' == s[1] || 'X' == s[1]) {
      start := 2;
    }
    ghost var d := Numeral(s, len);
    var k := 0;
    rc := 0;
    while start + k < len && start + k < |s|
      invariant 0 <= k <= |d|
      invariant AllHex(d[..k]) && rc == HexValue(d[..k]) && rc <= LLONG_MAX
    {
      assert d[k] == s[start + k];
      if !IsHex(s[start + k]) {
        StopsAt(d, k);
        return 0;
      }
      NextDigit(d, k);
      if rc > LLONG_MAX / 16 {
        Saturates(d, k + 1);
        return LLONG_MAX;
      }
      rc := 16 * rc + HexDigit(s[start + k]);
      k := k + 1;
    }
    assert d[..|d|] == d;
    ParsedOfHex(d);
  }

  /** On a numeral that is hexadecimal throughout, parsing is the value, saturated at LLONG_MAX. */
  lemma ParsedOfHex(d: string)
    requires AllHex(d)
    ensures Parsed(d) == if HexValue(d) > LLONG_MAX then LLONG_MAX else HexValue(d)
  {
    LeadingHexOfHex(d);
  }

  lemma StopsAt(d: string, k: nat)
    requires k < |d| && AllHex(d[..k]) && !IsHex(d[k]) && HexValue(d[..k]) <= LLONG_MAX
    ensures Parsed(d) == 0 && !AllHex(d)
  {
    PrefixInLeadingHex(d, k);
    var h := LeadingHex(d);
    assert forall j | 0 <= j < |h| :: h[j] == d[j] && IsHex(d[j]);
    assert h == d[..k];
  }

  lemma NextDigit(d: string, k: nat)
    requires k < |d| && AllHex(d[..k]) && IsHex(d[k])
    ensures AllHex(d[..k + 1]) && HexValue(d[..k + 1]) == 16 * HexValue(d[..k]) + HexDigit(d[k])
  {
    assert d[..k + 1][..k] == d[..k];
    assert forall j | 0 <= j <= k :: d[..k + 1][j] == if j < k then d[..k][j] else d[k];
  }

  lemma Saturates(d: string, i: nat)
    requires i <= |d| && AllHex(d[..i]) && HexValue(d[..i]) > LLONG_MAX
    ensures Parsed(d) == LLONG_MAX
    ensures AllHex(d) ==> HexValue(d) > LLONG_MAX
  {
    PrefixInLeadingHex(d, i);
    if AllHex(d) {
      LeadingHexOfHex(d);
    }
  }

  // ---------- the fixed-width pair: 16 upper-case digits, left-aligned parsing ----------

  function UpperDigit(d: nat): (c: char)
    requires d < 16
    ensures IsHex(c) && HexDigit(c) == d
  {
    if d < 10 then '0' + d as char else 'A' + (d - 10) as char
  }

  /** The `n` low nibbles of `v`, most significant first. */
  function Nibbles(v: nat, n: nat): (s: string)
    ensures |s| == n && AllHex(s)
  {
    if n == 0 then "" else Nibbles(v / 16, n - 1) + [UpperDigit(v % 16)]
  }

  lemma {:induction false} NibblesValue(v: nat, n: nat)
    requires v < Pow16(n)
    ensures HexValue(Nibbles(v, n)) == v
  {
    if n > 0 {
      NibblesValue(v / 16, n - 1);
      var s := Nibbles(v, n);
      assert s[..n - 1] == Nibbles(v / 16, n - 1);
    }
  }

  method RtlLongLongToUnicodeHex(inValue: int, inBuffer: array<char>)
    requires -TWO_63 <= inValue < TWO_63 && inBuffer.Length >= 17
    modifies inBuffer
    ensures inBuffer[..16] == Nibbles(Wrap64(inValue), 16) && inBuffer[16] == '\0'
    ensures inBuffer[17..] == old(inBuffer[17..])
  {
    var word: nat := Wrap64(inValue);
    ghost var w := word;
    var iChar := 0;
    while iChar < 16
      invariant 0 <= iChar <= 16
      invariant Nibbles(w, 16) == Nibbles(word, 16 - iChar) + inBuffer[16 - iChar..16]
      invariant inBuffer[17..] == old(inBuffer[17..])
    {
      var c := UpperDigit(word % 16);
      inBuffer[15 - iChar] := c;
      assert inBuffer[15 - iChar..16] == [c] + inBuffer[16 - iChar..16];
      word := word / 16;
      iChar := iChar + 1;
    }
    inBuffer[16] := '\0';
    assert inBuffer[..16] == inBuffer[0..16];
  }

  /** The value of a numeral of at most 16 digits that is shifted to the top of the word. */
  method RtlAnsiDbgHexToLongLong(inHexString: string, inMinStrLen: nat) returns (ok: bool, outValue: int)
    requires IsCString(inHexString)
    ensures ok <==> AllHex(inHexString) && inMinStrLen <= |inHexString| <= 16
    ensures ok ==> outValue == Signed64(Wrap64(HexValue(inHexString) * Pow16(16 - |inHexString|)))
  {
    var index, result: u64 := 0, 0;
    outValue := 0;
    assert inHexString[..0] == "";
    while index < |inHexString|
      invariant 0 <= index <= |inHexString| && index <= 16
      invariant AllHex(inHexString[..index])
      invariant result == Wrap64(HexValue(inHexString[..index]) * Pow16(16 - index))
    {
      if !IsHex(inHexString[index]) {
        return false, 0;
      }
      if index >= 16 {
        return false, 0;
      }
      var tmp := HexDigit(inHexString[index]);
      NextDigit(inHexString, index);
      Shift(HexValue(inHexString[..index]), tmp, Pow16(15 - index));
      result := Wrap64(result + tmp * Pow16(15 - index));
      index := index + 1;
    }
    assert inHexString[..index] == inHexString;
    if index < inMinStrLen {
      return false, 0;
    }
    return true, Signed64(result);
  }

  lemma Shift(v: nat, d: nat, p: nat)
    ensures Wrap64(Wrap64(v * (16 * p)) + d * p) == Wrap64((16 * v + d) * p)
  {
    assert v * (16 * p) + d * p == (16 * v + d) * p;
    assert (v * (16 * p)) % TWO_64 == v * (16 * p) - TWO_64 * ((v * (16 * p)) / TWO_64);
    WrapAdd(v * (16 * p), d * p);
  }

  lemma WrapAdd(a: int, b: int)
    ensures Wrap64(Wrap64(a) + b) == Wrap64(a + b)
  {
  }

  /** Printing a LONGLONG in 16 digits and parsing them gives the number back: what
    * RtlLongLongToUnicodeHex leaves in the buffer is a numeral that RtlAnsiDbgHexToLongLong accepts for
    * every minimum length up to 16 and maps to the printed value. */
  lemma LongLongRoundTrip(value: int)
    requires -TWO_63 <= value < TWO_63
    ensures var digits := Nibbles(Wrap64(value), 16);
            Signed64(Wrap64(HexValue(digits) * Pow16(16 - |digits|))) == value
  {
    Pow16Of16();
    var w := Wrap64(value);
    NibblesValue(w, 16);
    assert HexValue(Nibbles(w, 16)) * Pow16(0) == w;
    SignedOfWrap(value);
  }

  lemma SignedOfWrap(value: int)
    requires -TWO_63 <= value < TWO_63
    ensures Signed64(Wrap64(value)) == value && Wrap64(Wrap64(value)) == Wrap64(value)
  {
  }

  lemma Pow16Of16()
    ensures Pow16(16) == TWO_64 && Pow16(8) == TWO_32 && Pow16(0) == 1
  {
    assert Pow16(4) == TWO_16;
    assert Pow16(8) == 0x1_0000 * Pow16(4);
    assert Pow16(12) == 0x1_0000 * Pow16(8);
    assert Pow16(16) == 0x1_0000 * Pow16(12);
  }
}
