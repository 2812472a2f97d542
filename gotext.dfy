/**
 * The parts of Go's `strings`, `strconv` and `fmt` packages that the modelled code relies on,
 * over `string` = `seq<char>`. Each function states the property the Go library documents,
 * so that the models of the plugin code can reason about them.
 */
module GoText {

  /** `unicode.IsSpace`: the Latin-1 spaces and the Unicode White_Space characters above them. */
  predicate IsSpace(c: char) {
    var n := c as int;
    n == 0x09 || n == 0x0A || n == 0x0B || n == 0x0C || n == 0x0D || n == 0x20 ||
    n == 0x85 || n == 0xA0 || n == 0x1680 || (0x2000 <= n <= 0x200A) ||
    n == 0x2028 || n == 0x2029 || n == 0x202F || n == 0x205F || n == 0x3000
  }

  predicate NoSpace(s: string) {
    forall k :: 0 <= k < |s| ==> !IsSpace(s[k])
  }

  /** `strings.TrimLeftFunc`: drops the longest prefix whose characters all satisfy `drop`. */
  function TrimLeftFunc(s: string, drop: char -> bool): (r: string)
    ensures |r| <= |s| && r == s[|s| - |r|..]
    ensures r == [] || !drop(r[0])
    ensures forall k :: 0 <= k < |s| - |r| ==> drop(s[k])
    decreases |s|
  {
    if s != [] && drop(s[0]) then TrimLeftFunc(s[1..], drop) else s
  }

  /** `strings.TrimRightFunc`: drops the longest suffix whose characters all satisfy `drop`. */
  function TrimRightFunc(s: string, drop: char -> bool): (r: string)
    ensures |r| <= |s| && r == s[..|r|]
    ensures r == [] || !drop(r[|r| - 1])
    ensures forall k :: |r| <= k < |s| ==> drop(s[k])
    decreases |s|
  {
    if s != [] && drop(s[|s| - 1]) then TrimRightFunc(s[..|s| - 1], drop) else s
  }

  /** `strings.TrimSpace`. */
  function TrimSpace(s: string): (r: string)
    ensures |r| <= |s|
    ensures r == [] || (!IsSpace(r[0]) && !IsSpace(r[|r| - 1]))
    ensures s == [] || (!IsSpace(s[0]) && !IsSpace(s[|s| - 1])) ==> r == s
  {
    var t := TrimLeftFunc(s, IsSpace);
    var r := TrimRightFunc(t, IsSpace);
    assert r != [] ==> r[0] == t[0];
    r
  }

  /** `strings.Trim(s, cutset)`: drops leading and trailing characters that occur in `cutset`. */
  function Trim(s: string, cutset: string): (r: string)
    ensures |r| <= |s|
    ensures r == [] || (r[0] !in cutset && r[|r| - 1] !in cutset)
    ensures s == [] || (s[0] !in cutset && s[|s| - 1] !in cutset) ==> r == s
  {
    var drop := c => c in cutset;
    var t := TrimLeftFunc(s, drop);
    var r := TrimRightFunc(t, drop);
    assert r != [] ==> r[0] == t[0];
    r
  }

  /** `strings.TrimRight(s, cutset)`: drops trailing characters that occur in `cutset`. */
  function TrimRight(s: string, cutset: string): (r: string)
    ensures |r| <= |s| && r == s[..|r|]
    ensures r == [] || r[|r| - 1] !in cutset
    ensures forall k :: |r| <= k < |s| ==> s[k] in cutset
  {
    TrimRightFunc(s, c => c in cutset)
  }

  predicate HasPrefix(s: string, prefix: string) {
    |prefix| <= |s| && s[..|prefix|] == prefix
  }

  predicate HasSuffix(s: string, suffix: string) {
    |suffix| <= |s| && s[|s| - |suffix|..] == suffix
  }

  /** `sub` occurs in `s` starting at index `i`. */
  predicate OccursAt(s: string, sub: string, i: int) {
    0 <= i && i + |sub| <= |s| && s[i..i + |sub|] == sub
  }

  function IndexFrom(s: string, sub: string, start: nat): (r: int)
    ensures r == -1 || (start <= r && OccursAt(s, sub, r))
    ensures forall i :: start <= i && (r == -1 || i < r) ==> !OccursAt(s, sub, i)
    decreases |s| - start
  {
    if start + |sub| > |s| then -1
    else if s[start..start + |sub|] == sub then start
    else IndexFrom(s, sub, start + 1)
  }

  /** `strings.Index`: the first position of `sub` in `s`, or -1. */
  function Index(s: string, sub: string): (r: int)
    ensures r == -1 || OccursAt(s, sub, r)
    ensures forall i :: 0 <= i && (r == -1 || i < r) ==> !OccursAt(s, sub, i)
  {
    IndexFrom(s, sub, 0)
  }

  /** `strings.Contains`. */
  predicate Contains(s: string, sub: string) {
    Index(s, sub) >= 0
  }

  lemma ContainsIff(s: string, sub: string)
    ensures Contains(s, sub) <==> exists i :: OccursAt(s, sub, i)
  {
    if Contains(s, sub) {
      assert OccursAt(s, sub, Index(s, sub));
    }
  }

  lemma ContainsInfix(a: string, sub: string, b: string)
    ensures Contains(a + sub + b, sub)
  {
    assert (a + sub + b)[|a|..|a| + |sub|] == sub;
    assert OccursAt(a + sub + b, sub, |a|);
  }

  /** Length of the longest prefix of `s` that has no space. */
  function WordLength(s: string): (n: nat)
    ensures n <= |s| && NoSpace(s[..n])
    ensures n == |s| || IsSpace(s[n])
  {
    if s == [] || IsSpace(s[0]) then 0
    else
      var m := WordLength(s[1..]);
      assert s[..1 + m] == [s[0]] + s[1..][..m];
      1 + m
  }

  /** The characters of `s` that are not spaces, in order. */
  function NonSpaceChars(s: string): string {
    if s == [] then [] else (if IsSpace(s[0]) then [] else [s[0]]) + NonSpaceChars(s[1..])
  }

  /** The strings of `parts`, one after another. */
  function Concat(parts: seq<string>): string {
    if parts == [] then [] else parts[0] + Concat(parts[1..])
  }

  lemma {:induction false} NonSpaceCharsAppend(a: string, b: string)
    ensures NonSpaceChars(a + b) == NonSpaceChars(a) + NonSpaceChars(b)
    decreases |a|
  {
    if a == [] {
      assert a + b == b;
    } else {
      assert (a + b)[0] == a[0] && (a + b)[1..] == a[1..] + b;
      NonSpaceCharsAppend(a[1..], b);
    }
  }


  /** A word without spaces keeps all its characters. */
  lemma {:induction false} NonSpaceCharsOfWord(s: string)
    requires NoSpace(s)
    ensures NonSpaceChars(s) == s
    decreases |s|
  {
    if s != [] {
      assert forall k :: 0 <= k < |s[1..]| ==> s[1..][k] == s[k + 1];
      NonSpaceCharsOfWord(s[1..]);
    }
  }

  /** Trimming leading spaces loses no non-space character. */
  lemma {:induction false} NonSpaceCharsTrimLeft(s: string)
    ensures NonSpaceChars(TrimLeftFunc(s, IsSpace)) == NonSpaceChars(s)
    decreases |s|
  {
    if s != [] && IsSpace(s[0]) {
      NonSpaceCharsTrimLeft(s[1..]);
    }
  }

  /** The first word of `t` followed by fields that spell the rest of `t` spells all of `t`. */
  lemma WordThenRest(t: string, rest: seq<string>)
    requires Concat(rest) == NonSpaceChars(t[WordLength(t)..])
    ensures Concat([t[..WordLength(t)]] + rest) == NonSpaceChars(t)
  {
    var n := WordLength(t);
    assert t == t[..n] + t[n..];
    NonSpaceCharsAppend(t[..n], t[n..]);
    NonSpaceCharsOfWord(t[..n]);
    assert ([t[..n]] + rest)[0] == t[..n] && ([t[..n]] + rest)[1..] == rest;
  }

  /** `strings.Fields`: the maximal runs of non-space characters, in order. */
  function Fields(s: string): (r: seq<string>)
    ensures forall k :: 0 <= k < |r| ==> r[k] != [] && NoSpace(r[k])
    decreases |s|
  {
    var t := TrimLeftFunc(s, IsSpace);
    if t == [] then []
    else
      var n := WordLength(t);
      [t[..n]] + Fields(t[n..])
  }

  /**
   * `strings.Fields` drops the spaces and nothing else: its fields, one after another, are
   * the input's non-space characters in order.
   */
  lemma {:induction false} FieldsSpell(s: string)
    ensures Concat(Fields(s)) == NonSpaceChars(s)
    decreases |s|
  {
    var t := TrimLeftFunc(s, IsSpace);
    NonSpaceCharsTrimLeft(s);
    if t != [] {
      var n := WordLength(t);
      FieldsSpell(t[n..]);
      WordThenRest(t, Fields(t[n..]));
    }
  }

  /** `strings.Join(parts, [sep])`. */
  function Join(parts: seq<string>, sep: char): string
    requires parts != []
  {
    if |parts| == 1 then parts[0] else parts[0] + [sep] + Join(parts[1..], sep)
  }

  function IndexOfChar(s: string, c: char): (r: int)
    ensures -1 <= r < |s|
    ensures r >= 0 ==> s[r] == c && c !in s[..r]
    ensures r == -1 ==> c !in s
  {
    if s == [] then -1
    else if s[0] == c then 0
    else
      var k := IndexOfChar(s[1..], c);
      if k == -1 then -1
      else
        assert s[..k + 1] == [s[0]] + s[1..][..k];
        k + 1
  }

  /** `strings.Split(s, [sep])`: the pieces between separators; joining them back gives `s`. */
  function Split(s: string, sep: char): (r: seq<string>)
    ensures r != []
    ensures forall k :: 0 <= k < |r| ==> sep !in r[k]
    ensures Join(r, sep) == s
    decreases |s|
  {
    var i := IndexOfChar(s, sep);
    if i < 0 then [s]
    else
      var rest := Split(s[i + 1..], sep);
      assert s == s[..i] + [sep] + s[i + 1..];
      [s[..i]] + rest
  }

  predicate IsDigit(c: char) {
    '0' <= c <= '9'
  }

  predicate AllDigits(s: string) {
    forall k :: 0 <= k < |s| ==> IsDigit(s[k])
  }

  function DigitValue(c: char): nat
    requires IsDigit(c)
  {
    (c as int) - ('0' as int)
  }

  /** The number denoted by a string of decimal digits (most significant first). */
  function DigitsValue(s: string): nat
    requires AllDigits(s)
  {
    if s == [] then 0 else 10 * DigitsValue(s[..|s| - 1]) + DigitValue(s[|s| - 1])
  }

  const MaxInt64: int := 0x7FFF_FFFF_FFFF_FFFF
  const MinInt64: int := -0x8000_0000_0000_0000

  /** What `strconv.Atoi` accepts: an optional sign followed by at least one decimal digit. */
  predicate IsDecimal(s: string) {
    var body := if s != [] && (s[0] == '+' || s[0] == '-') then s[1..] else s;
    body != [] && AllDigits(body)
  }

  /**
   * The value `strconv.Atoi` returns on a 64-bit platform, whether or not it also returns an
   * error: 0 on a syntax error, the nearest bound of `int` on a range error.
   */
  function AtoiValue(s: string): (r: int)
    ensures MinInt64 <= r <= MaxInt64
    ensures !IsDecimal(s) ==> r == 0
    ensures IsDecimal(s) && s[0] != '-' && s[0] != '+' && DigitsValue(s) <= MaxInt64 ==> r == DigitsValue(s)
  {
    if !IsDecimal(s) then 0
    else if s[0] == '-' then
      var m := DigitsValue(s[1..]);
      if m > -MinInt64 then MinInt64 else 0 - (m as int)
    else
      var m := DigitsValue(if s[0] == '+' then s[1..] else s);
      if m > MaxInt64 then MaxInt64 else m
  }

  function DigitChar(d: nat): (c: char)
    requires d < 10
    ensures IsDigit(c) && DigitValue(c) == d
  {
    ('0' as int + d) as char
  }

  /** Decimal digits of a natural number, without leading zeros. */
  function NatText(n: nat): (s: string)
    ensures s != [] && AllDigits(s) && DigitsValue(s) == n
    ensures |s| > 1 ==> s[0] != '0'
  {
    if n < 10 then [DigitChar(n)]
    else
      var p := NatText(n / 10);
      var s := p + [DigitChar(n % 10)];
      assert s[..|s| - 1] == p;
      s
  }

  /** `strconv.Itoa`. */
  function Itoa(n: int): (s: string)
    ensures s != []
    ensures n >= 0 ==> AllDigits(s)
    ensures n < 0 ==> s[0] == '-' && AllDigits(s[1..])
  {
    if n < 0 then "-" + NatText(-n) else NatText(n)
  }

  /** `strconv.Atoi` reads back what `strconv.Itoa` writes, for every 64-bit integer. */
  lemma AtoiItoa(n: int)
    requires MinInt64 <= n <= MaxInt64
    ensures AtoiValue(Itoa(n)) == n
  {
    var s := Itoa(n);
    if n < 0 {
      assert s[1..] == NatText(-n);
    } else {
      assert IsDecimal(s);
    }
  }

  /** The lower-case hexadecimal digit for `d`. */
  function HexDigit(d: nat): (c: char)
    requires d < 16
    ensures IsLowerHex(c)
  {
    if d < 10 then ('0' as int + d) as char else ('a' as int + d - 10) as char
  }

  predicate IsLowerHex(c: char) {
    ('0' <= c <= '9') || ('a' <= c <= 'f')
  }

  function HexValue(c: char): (d: nat)
    requires IsLowerHex(c)
    ensures d < 16
  {
    if c <= '9' then (c as int) - ('0' as int) else (c as int) - ('a' as int) + 10
  }

  /** The two lower-case hex digits of one byte, as `%x` prints them. */
  function HexByte(b: bv8): (s: string)
    ensures |s| == 2 && IsLowerHex(s[0]) && IsLowerHex(s[1])
  {
    [HexDigit(b as int / 16), HexDigit(b as int % 16)]
  }

  /** The value (0 to 255) of two hex digits. */
  function UnhexByte(hi: char, lo: char): nat
    requires IsLowerHex(hi) && IsLowerHex(lo)
  {
    16 * HexValue(hi) + HexValue(lo)
  }

  lemma HexDigitValue(d: nat)
    requires d < 16
    ensures HexValue(HexDigit(d)) == d
  {
  }

  lemma UnhexHexByte(b: bv8)
    ensures UnhexByte(HexByte(b)[0], HexByte(b)[1]) == b as int
  {
    var n := b as int;
    HexDigitValue(n / 16);
    HexDigitValue(n % 16);
  }

  /** `fmt.Sprintf("%x", bs)` for a byte slice: two lower-case hex digits per byte. */
  function HexBytes(bs: seq<bv8>): (s: string)
    ensures |s| == 2 * |bs|
    ensures forall k :: 0 <= k < |s| ==> IsLowerHex(s[k])
  {
    if bs == [] then [] else HexByte(bs[0]) + HexBytes(bs[1..])
  }

  /** Reads back two hex digits per byte, as numbers. */
  function UnhexBytes(s: string): (vs: seq<nat>)
    requires |s| % 2 == 0
    requires forall k :: 0 <= k < |s| ==> IsLowerHex(s[k])
    ensures |vs| == |s| / 2
  {
    if s == [] then [] else [UnhexByte(s[0], s[1])] + UnhexBytes(s[2..])
  }

  /** The numeric values of a byte sequence. */
  function Values(bs: seq<bv8>): (vs: seq<nat>)
    ensures |vs| == |bs| && forall k :: 0 <= k < |bs| ==> vs[k] == bs[k] as int
  {
    seq(|bs|, k requires 0 <= k < |bs| => bs[k] as int)
  }

  /** `HexBytes` loses nothing: reading its digits back gives every byte's value, in order. */
  lemma {:induction false} UnhexHex(bs: seq<bv8>)
    ensures UnhexBytes(HexBytes(bs)) == Values(bs)
  {
    if bs != [] {
      var s := HexBytes(bs);
      assert s[..2] == HexByte(bs[0]) && s[2..] == HexBytes(bs[1..]);
      UnhexHexByte(bs[0]);
      UnhexHex(bs[1..]);
    }
  }
}
