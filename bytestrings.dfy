/** Python `bytes` and the two conversions the license gate relies on:
    `bytes.fromhex` / `bytes.hex` for the signature field and
    `str.encode("utf-8")` for the signed payload. */
module ByteStrings {
  import opened Wrappers

  newtype byte = x: int | 0 <= x < 256
  type Bytes = seq<byte>

  /** The ASCII whitespace that `bytes.fromhex` skips between byte pairs. */
  predicate IsAsciiSpace(c: char) {
    c == ' ' || c == '\t' || c == '\n' || c == '\r' || c == '\U{0b}' || c == '\U{0c}'
  }

  predicate IsHexDigit(c: char) {
    ('0' <= c <= '9') || ('a' <= c <= 'f') || ('A' <= c <= 'F')
  }

  function DigitValue(c: char): (v: nat)
    requires IsHexDigit(c)
    ensures v < 16
  {
    if '0' <= c <= '9' then c as int - '0' as int
    else if 'a' <= c <= 'f' then c as int - 'a' as int + 10
    else c as int - 'A' as int + 10
  }

  /** The lower-case digit `bytes.hex` writes for a nibble. */
  function HexDigit(v: nat): (c: char)
    requires v < 16
    ensures IsHexDigit(c) && !IsAsciiSpace(c) && DigitValue(c) == v
  {
    if v < 10 then ('0' as int + v) as char else ('a' as int + v - 10) as char
  }

  /** `bytes.fromhex(s)`: pairs of hex digits, with ASCII whitespace allowed
      before and after each pair but not inside one; anything else raises
      ValueError, modelled as None. */
  function FromHex(s: string): (r: Option<Bytes>)
    ensures r.Some? ==> 2 * |r.value| <= |s|
    decreases |s|
  {
    if |s| == 0 then Some([])
    else if IsAsciiSpace(s[0]) then FromHex(s[1..])
    else if |s| >= 2 && IsHexDigit(s[0]) && IsHexDigit(s[1]) then
      match FromHex(s[2..])
      case None => None
      case Some(rest) => Some([(16 * DigitValue(s[0]) + DigitValue(s[1])) as byte] + rest)
    else None
  }

  /** `bytes.hex()`: two lower-case hex digits per byte, no separators. */
  function Hex(b: Bytes): (s: string)
    ensures |s| == 2 * |b|
    ensures forall i :: 0 <= i < |s| ==> IsHexDigit(s[i]) && !IsAsciiSpace(s[i])
  {
    if |b| == 0 then "" else [HexDigit(b[0] as int / 16), HexDigit(b[0] as int % 16)] + Hex(b[1..])
  }

  /** Decoding what `hex()` produced gives back the bytes. */
  lemma {:induction false} FromHexOfHex(b: Bytes)
    ensures FromHex(Hex(b)) == Some(b)
  {
    if |b| > 0 {
      var s := Hex(b);
      assert s[2..] == Hex(b[1..]);
      FromHexOfHex(b[1..]);
      assert !IsAsciiSpace(s[0]) && IsHexDigit(s[0]) && IsHexDigit(s[1]);
      assert 16 * DigitValue(s[0]) + DigitValue(s[1]) == b[0] as int;
      assert FromHex(s) == Some([b[0]] + b[1..]);
      assert [b[0]] + b[1..] == b;
    }
  }

  /** Whitespace in front of the hex text changes nothing. */
  lemma {:induction false} FromHexSkipsLeadingSpace(w: string, s: string)
    requires forall i :: 0 <= i < |w| ==> IsAsciiSpace(w[i])
    ensures FromHex(w + s) == FromHex(s)
  {
    if |w| == 0 {
      assert w + s == s;
    } else {
      assert (w + s)[0] == w[0] && (w + s)[1..] == w[1..] + s;
      FromHexSkipsLeadingSpace(w[1..], s);
    }
  }

  /** A run of hex pairs decodes to its bytes, placed before whatever the
      text after it decodes to; an error after it is still an error. */
  lemma {:induction false} FromHexAfterHex(b: Bytes, t: string)
    ensures FromHex(Hex(b) + t) == (match FromHex(t) case None => None case Some(r) => Some(b + r))
  {
    if |b| == 0 {
      assert Hex(b) + t == t;
      if FromHex(t).Some? {
        assert b + FromHex(t).value == FromHex(t).value;
      }
    } else {
      var u := Hex(b[1..]) + t;
      var pair := [HexDigit(b[0] as int / 16), HexDigit(b[0] as int % 16)];
      assert Hex(b) == pair + Hex(b[1..]);
      assert Hex(b) + t == pair + u;
      FromHexOfPair(b[0], u);
      FromHexAfterHex(b[1..], t);
      if FromHex(t).None? {
        assert FromHex(u) == None;
      } else {
        var r := FromHex(t).value;
        assert FromHex(u) == Some(b[1..] + r);
        assert [b[0]] + (b[1..] + r) == b + r;
      }
    }
  }

  /** The two digits `hex()` writes for a byte decode to that byte, in
      front of whatever follows. */
  lemma FromHexOfPair(x: byte, u: string)
    ensures FromHex([HexDigit(x as int / 16), HexDigit(x as int % 16)] + u)
      == (match FromHex(u) case None => None case Some(r) => Some([x] + r))
  {
    var s := [HexDigit(x as int / 16), HexDigit(x as int % 16)] + u;
    assert s[2..] == u;
    assert ((16 * DigitValue(s[0]) + DigitValue(s[1])) as byte) == x;
  }

  /** Whitespace between byte pairs is skipped: the pairs before it and the
      text after it decode as if it were not there. */
  lemma FromHexSkipsSpaceBetweenPairs(b: Bytes, w: string, s: string)
    requires forall i :: 0 <= i < |w| ==> IsAsciiSpace(w[i])
    ensures FromHex(Hex(b) + w + s) == (match FromHex(s) case None => None case Some(r) => Some(b + r))
  {
    assert Hex(b) + w + s == Hex(b) + (w + s);
    FromHexAfterHex(b, w + s);
    FromHexSkipsLeadingSpace(w, s);
  }

  /** A pair split by whitespace is rejected wherever it occurs: after any
      well-formed pairs, a hex digit followed by whitespace makes the whole
      text invalid, whatever follows. */
  lemma FromHexRejectsSplitPair(b: Bytes, a: char, w: char, s: string)
    requires IsHexDigit(a) && IsAsciiSpace(w)
    ensures FromHex(Hex(b) + [a, w] + s) == None
  {
    assert Hex(b) + [a, w] + s == Hex(b) + ([a, w] + s);
    FromHexAfterHex(b, [a, w] + s);
    assert ([a, w] + s)[0] == a && ([a, w] + s)[1] == w;
  }

  /** When `fromhex` succeeds, the text held only hex digits and ASCII
      whitespace, and two hex digits for every byte. */
  lemma {:induction false} FromHexAccepted(s: string)
    requires FromHex(s).Some?
    ensures forall i :: 0 <= i < |s| ==> IsHexDigit(s[i]) || IsAsciiSpace(s[i])
    ensures 2 * |FromHex(s).value| <= |s|
    decreases |s|
  {
    if |s| > 0 {
      if IsAsciiSpace(s[0]) {
        FromHexAccepted(s[1..]);
        assert forall i :: 1 <= i < |s| ==> s[i] == s[1..][i - 1];
      } else {
        FromHexAccepted(s[2..]);
        assert forall i :: 2 <= i < |s| ==> s[i] == s[2..][i - 2];
      }
    }
  }

  /** `str.encode("utf-8")` of one code point. */
  function Utf8Char(c: char): (r: Bytes)
    ensures 1 <= |r| <= 4
    ensures |r| == 1 <==> c as int < 0x80
  {
    var n := c as int;
    if n < 0x80 then [n as byte]
    else if n < 0x800 then [(0xC0 + n / 64) as byte, (0x80 + n % 64) as byte]
    else if n < 0x10000 then
      [(0xE0 + n / 4096) as byte, (0x80 + (n / 64) % 64) as byte, (0x80 + n % 64) as byte]
    else
      [(0xF0 + n / 262144) as byte, (0x80 + (n / 4096) % 64) as byte,
       (0x80 + (n / 64) % 64) as byte, (0x80 + n % 64) as byte]
  }

  predicate IsAscii(s: string) {
    forall i :: 0 <= i < |s| ==> s[i] as int < 0x80
  }

  /** `str.encode("utf-8")`. */
  function Utf8Encode(s: string): (r: Bytes)
    ensures |r| >= |s|
    ensures IsAscii(s) ==> |r| == |s| && forall i :: 0 <= i < |s| ==> r[i] as int == s[i] as int
  {
    if |s| == 0 then [] else Utf8Char(s[0]) + Utf8Encode(s[1..])
  }
}
