/** 48-bit hardware addresses: the octet form the allocator edits in place, and
    the number it stands for (pkg/utils/utils.go, pkg/pool-manager/pool.go). */
module Addresses {

  datatype Option<+T> = None | Some(value: T)

  type Octet = x: int | 0 <= x < 256

  type Mac = s: seq<Octet> | |s| == 6 witness [0, 0, 0, 0, 0, 0]

  const SPACE: int := 0x1_0000_0000_0000

  /** Positional value of a big-endian octet string. */
  function Value(s: seq<Octet>): (v: nat) {
    if s == [] then 0 else Value(s[..|s| - 1]) * 256 + s[|s| - 1]
  }

  /** Octet k of the 8-octet big-endian form of n, as PutUint64 writes it. */
  function Octet64(n: nat, k: nat): Octet
    requires k < 8
  {
    match k
    case 0 => (n / 0x100_0000_0000_0000) % 256
    case 1 => (n / 0x1_0000_0000_0000) % 256
    case 2 => (n / 0x100_0000_0000) % 256
    case 3 => (n / 0x1_0000_0000) % 256
    case 4 => (n / 0x100_0000) % 256
    case 5 => (n / 0x1_0000) % 256
    case 6 => (n / 0x100) % 256
    case _ => n % 256
  }

  /** The low six octets of the 8-octet big-endian form. */
  function Encode(n: nat): Mac {
    [Octet64(n, 2), Octet64(n, 3), Octet64(n, 4), Octet64(n, 5), Octet64(n, 6), Octet64(n, 7)]
  }

  lemma ValueSix(m: Mac)
    ensures Value(m) == m[0] as int * 0x100_0000_0000 + m[1] as int * 0x1_0000_0000
                        + m[2] as int * 0x100_0000 + m[3] as int * 0x1_0000 + m[4] as int * 0x100 + m[5]
    ensures Value(m) < SPACE
  {
    assert m[..5][..4] == m[..4];
    assert m[..4][..3] == m[..3];
    assert m[..3][..2] == m[..2];
    assert m[..2][..1] == m[..1];
    assert m[..1][..0] == [];
    assert Value(m[..1]) == m[0];
    assert Value(m[..2]) == m[0] as int * 256 + m[1];
    assert Value(m[..3]) == Value(m[..2]) * 256 + m[2];
    assert Value(m[..4]) == Value(m[..3]) * 256 + m[3];
  }

  lemma DivisionChain(n: nat)
    ensures n / 0x1_0000 == n / 0x100 / 0x100
    ensures n / 0x100_0000 == n / 0x1_0000 / 0x100
    ensures n / 0x1_0000_0000 == n / 0x100_0000 / 0x100
    ensures n / 0x100_0000_0000 == n / 0x1_0000_0000 / 0x100
  {
  }

  lemma EncodeDigits(n: nat)
    ensures var e := Encode(n);
            && e[0] == n / 0x100_0000_0000 % 256 && e[1] == n / 0x1_0000_0000 % 256 && e[2] == n / 0x100_0000 % 256
            && e[3] == n / 0x1_0000 % 256 && e[4] == n / 0x100 % 256 && e[5] == n % 256
  {
  }

  /** Encoding and valuation are mutually inverse between the 48-bit numbers and the addresses. */
  lemma EncodeValue(n: nat)
    requires n < SPACE
    ensures Value(Encode(n)) == n
  {
    EncodeDigits(n);
    ValueSix(Encode(n));
    DivisionChain(n);
    Positional(n / 0x100_0000_0000, n / 0x1_0000_0000, n / 0x100_0000, n / 0x1_0000, n / 0x100, n);
  }

  /** The digits of a chain of divisions by 256 add up to the number. */
  lemma Positional(h5: nat, h4: nat, h3: nat, h2: nat, h1: nat, n: nat)
    requires h1 == n / 256 && h2 == h1 / 256 && h3 == h2 / 256 && h4 == h3 / 256 && h5 == h4 / 256
    ensures n == h5 * 0x100_0000_0000 + h4 % 256 * 0x1_0000_0000 + h3 % 256 * 0x100_0000 + h2 % 256 * 0x1_0000
            + h1 % 256 * 0x100 + n % 256
    ensures n < SPACE ==> h5 < 256
  {
    assert n == h1 * 256 + n % 256;
    assert h1 == h2 * 256 + h1 % 256;
    assert h2 == h3 * 256 + h2 % 256;
    assert h3 == h4 * 256 + h3 % 256;
    assert h4 == h5 * 256 + h4 % 256;
  }

  lemma ValueEncode(m: Mac)
    ensures Value(m) < SPACE
    ensures Encode(Value(m)) == m
  {
    ValueSix(m);
    var n := Value(m);
    var e := Encode(n);
    EncodeValue(n);
    ValueSix(e);
    DigitsUnique(m, e);
  }

  lemma DigitsUnique(a: Mac, b: Mac)
    requires Value(a) == Value(b)
    ensures a == b
  {
    ValueSix(a);
    ValueSix(b);
    assert a[0] == b[0];
    assert a[1] == b[1];
    assert a[2] == b[2];
    assert a[3] == b[3];
    assert a[4] == b[4];
    assert a[5] == b[5];
  }

  /** Octet-by-octet (dictionary) order. */
  ghost predicate OctetLess(a: Mac, b: Mac) {
    exists k :: 0 <= k < 6 && a[..k] == b[..k] && a[k] < b[k]
  }

  lemma LessAt(a: Mac, b: Mac, k: nat)
    requires k < 6 && a[..k] == b[..k] && a[k] < b[k]
    ensures Value(a) < Value(b)
  {
    ValueSix(a);
    ValueSix(b);
    assert forall j :: 0 <= j < k ==> a[j] == a[..k][j] == b[..k][j] == b[j];
  }

  /** Dictionary order of the octets is numeric order of the values. */
  lemma OctetOrderIsNumeric(a: Mac, b: Mac)
    ensures OctetLess(a, b) <==> Value(a) < Value(b)
  {
    if a != b {
      var k := if a[0] != b[0] then 0 else if a[1] != b[1] then 1 else if a[2] != b[2] then 2
               else if a[3] != b[3] then 3 else if a[4] != b[4] then 4 else 5;
      assert a[..k] == b[..k];
      if a[k] < b[k] {
        LessAt(a, b, k);
      } else {
        LessAt(b, a, k);
        if OctetLess(a, b) {
          var j :| 0 <= j < 6 && a[..j] == b[..j] && a[j] < b[j];
          LessAt(a, b, j);
        }
      }
    }
  }

  /** What the carry loop has done once octet idx absorbed the carry. */
  lemma CarryIsIncrement(was: Mac, now: Mac, idx: nat)
    requires idx < 6 && now[idx] == was[idx] as int + 1
    requires forall k :: 0 <= k < idx ==> now[k] == was[k]
    requires forall k :: idx < k < 6 ==> now[k] == 0 && was[k] == 255
    ensures Value(now) == Value(was) + 1 < SPACE
  {
    ValueSix(was);
    ValueSix(now);
  }

  lemma FullCarryWraps(was: Mac, now: Mac)
    requires forall k :: 0 <= k < 6 ==> now[k] == 0 && was[k] == 255
    ensures Value(was) + 1 == SPACE && Value(now) == 0
  {
    ValueSix(was);
    ValueSix(now);
  }

  /** In-place increment with carry from the last octet upwards. */
  method GetNextMac(a: array<Octet>)
    requires a.Length == 6
    modifies a
    ensures Value(a[..]) == (Value(old(a[..])) + 1) % SPACE
  {
    ghost var was := a[..];
    var idx := 5;
    while idx >= 0
      invariant -1 <= idx <= 5
      invariant forall k :: idx < k < 6 ==> a[k] == 0 && was[k] == 255
      invariant forall k :: 0 <= k <= idx ==> a[k] == was[k]
    {
      a[idx] := (a[idx] as int + 1) % 256;
      if a[idx] != 0 {
        CarryIsIncrement(was, a[..], idx);
        return;
      }
      idx := idx - 1;
    }
    FullCarryWraps(was, a[..]);
  }

  // ---- hex printing and parsing -------------------------------------------------------------

  /** The lower-case hex digit of that value. */
  function Digit(d: nat): char
    requires d < 16
  {
    if d < 10 then '0' + d as char else 'a' + (d - 10) as char
  }

  function DigitValue(c: char): Option<nat> {
    if '0' <= c <= '9' then Some(c as int - '0' as int)
    else if 'a' <= c <= 'f' then Some(c as int - 'a' as int + 10)
    else if 'A' <= c <= 'F' then Some(c as int - 'A' as int + 10)
    else None
  }

  /** The two-digit lower-case form of one octet. */
  function PrintOctet(x: Octet): string {
    [Digit(x / 16), Digit(x % 16)]
  }

  /** The number a digit string denotes, or nothing on a character that is no digit. */
  function HexNumber(s: string): Option<nat> {
    if s == [] then Some(0)
    else
      var d, rest := DigitValue(s[|s| - 1]), HexNumber(s[..|s| - 1]);
      if d.None? || rest.None? then None else Some(rest.value * 16 + d.value)
  }

  /** Base-16 parse into a signed 64-bit integer: empty, malformed and too large inputs are errors. */
  function ParseInt64(s: string): Option<nat> {
    var n := HexNumber(s);
    if s == [] || n.None? || n.value >= 0x8000_0000_0000_0000 then None else n
  }

  lemma PrintedOctet(x: Octet)
    ensures |PrintOctet(x)| == 2
    ensures DigitValue(PrintOctet(x)[0]) == Some(x / 16)
    ensures DigitValue(PrintOctet(x)[1]) == Some(x % 16)
  {
    DigitRoundTrip(x / 16);
    DigitRoundTrip(x % 16);
  }

  lemma DigitRoundTrip(d: nat)
    requires d < 16
    ensures DigitValue(Digit(d)) == Some(d)
  {
  }

  lemma HexSnoc(s: string, c: char, d: nat)
    requires HexNumber(s).Some? && DigitValue(c) == Some(d)
    ensures HexNumber(s + [c]) == Some(HexNumber(s).value * 16 + d)
  {
    var t := s + [c];
    assert t[..|t| - 1] == s && t[|t| - 1] == c;
  }

  /** Two more digits are one more octet. */
  lemma HexTwo(s: string, p: string, x: Octet)
    requires HexNumber(s).Some? && |p| == 2 && DigitValue(p[0]) == Some(x / 16) && DigitValue(p[1]) == Some(x % 16)
    ensures HexNumber(s + p) == Some(HexNumber(s).value * 256 + x)
  {
    var t := s + [p[0]];
    HexSnoc(s, p[0], x / 16);
    HexSnoc(t, p[1], x % 16);
    assert s + p == t + [p[1]];
  }

  lemma ValueSnoc(s: seq<Octet>, x: Octet)
    ensures Value(s + [x]) == Value(s) * 256 + x
  {
    assert (s + [x])[..|s|] == s;
  }

  /** Prints every octet, joins the text and parses it back: the result is the positional value. */
  method ConvertHwAddrToInt64(address: seq<Octet>) returns (r: Option<nat>)
    ensures |address| == 6 ==> r == Some(Value(address))
    ensures r.Some? ==> r.value == Value(address) < 0x8000_0000_0000_0000
  {
    var text: string := "";
    for i := 0 to |address|
      invariant HexNumber(text) == Some(Value(address[..i]))
      invariant |text| == 2 * i
    {
      PrintedOctet(address[i]);
      HexTwo(text, PrintOctet(address[i]), address[i]);
      ValueSnoc(address[..i], address[i]);
      assert address[..i] + [address[i]] == address[..i + 1];
      text := text + PrintOctet(address[i]);
    }
    assert address[..|address|] == address;
    if |address| == 6 {
      ValueSix(address);
    }
    r := ParseInt64(text);
  }

  // ---- sequences ------------------------------------------------------------------------------

  ghost predicate Distinct<T(!new)>(s: seq<T>) {
    forall a, b :: 0 <= a < b < |s| ==> s[a] != s[b]
  }

  lemma ConcatAssoc<T>(a: seq<T>, b: seq<T>, c: seq<T>)
    ensures a + (b + c) == (a + b) + c
  {
  }
}
