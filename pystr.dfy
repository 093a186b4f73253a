/** The parts of Python's `str` semantics the license gate depends on:
    `str.strip()` with no argument, and the code-point order that `sorted`
    uses on string keys. */
module PyStr {
  import ByteStrings

  /** `c.isspace()`: the ASCII whitespace and separator controls, plus the
      Unicode characters CPython classes as whitespace. */
  function IsSpace(c: char): (r: bool)
    ensures c as int < 0x80 ==> (r <==> ByteStrings.IsAsciiSpace(c) || 0x1C <= c as int <= 0x1F)
  {
    var n := c as int;
    (0x09 <= n <= 0x0D) || (0x1C <= n <= 0x20) || n == 0x85 || n == 0xA0 || n == 0x1680
    || (0x2000 <= n <= 0x200A) || n == 0x2028 || n == 0x2029 || n == 0x202F || n == 0x205F
    || n == 0x3000
  }

  predicate AllSpace(s: string) {
    forall i :: 0 <= i < |s| ==> IsSpace(s[i])
  }

  /** No whitespace at either end: what `strip` leaves behind. */
  predicate Trimmed(s: string) {
    s == [] || (!IsSpace(s[0]) && !IsSpace(s[|s| - 1]))
  }

  /** `s.lstrip()`: the suffix left after dropping leading whitespace. */
  function LStrip(s: string): (r: string)
    ensures |r| <= |s| && r == s[|s| - |r|..]
    ensures forall i :: 0 <= i < |s| - |r| ==> IsSpace(s[i])
    ensures r == [] || !IsSpace(r[0])
  {
    if |s| > 0 && IsSpace(s[0]) then
      var r := LStrip(s[1..]);
      assert forall i :: 1 <= i < |s| ==> s[i] == s[1..][i - 1];
      r
    else s
  }

  /** `s.rstrip()`: the prefix left after dropping trailing whitespace. */
  function RStrip(s: string): (r: string)
    ensures |r| <= |s| && r == s[..|r|]
    ensures forall i :: |r| <= i < |s| ==> IsSpace(s[i])
    ensures r == [] || !IsSpace(r[|r| - 1])
  {
    if |s| > 0 && IsSpace(s[|s| - 1]) then RStrip(s[..|s| - 1]) else s
  }

  /** `s.strip()`: drop leading, then trailing, whitespace. */
  function Strip(s: string): (r: string)
    ensures Trimmed(r)
    ensures StripsAt(s, r, |s| - |LStrip(s)|)
  {
    StripFacts(s);
    RStrip(LStrip(s))
  }

  lemma StripFacts(s: string)
    ensures Trimmed(RStrip(LStrip(s)))
    ensures StripsAt(s, RStrip(LStrip(s)), |s| - |LStrip(s)|)
  {
    var l := LStrip(s);
    var r := RStrip(l);
    if |l| > 0 {
      RStripKeepsHead(l);
    }
    StripsAtLemma(s, l, r);
  }

  /** A text that starts with a non-blank keeps that character under `rstrip`. */
  lemma RStripKeepsHead(l: string)
    requires |l| > 0 && !IsSpace(l[0])
    ensures |RStrip(l)| > 0 && RStrip(l)[0] == l[0]
  {
  }

  /** `r` sits at offset `i` of `s` with only whitespace around it. */
  predicate StripsAt(s: string, r: string, i: int) {
    0 <= i <= |s| - |r| && r == s[i..i + |r|] && AllSpace(s[..i]) && AllSpace(s[i + |r|..])
  }

  lemma StripsAtLemma(s: string, l: string, r: string)
    requires |l| <= |s| && l == s[|s| - |l|..] && forall i :: 0 <= i < |s| - |l| ==> IsSpace(s[i])
    requires |r| <= |l| && r == l[..|r|] && forall i :: |r| <= i < |l| ==> IsSpace(l[i])
    ensures StripsAt(s, r, |s| - |l|)
  {
    var i := |s| - |l|;
    assert forall j :: i + |r| <= j < |s| ==> s[j] == l[j - i];
  }

  /** Whitespace around an already trimmed text is exactly what `strip`
      removes: a fingerprint file with or without surrounding blanks or a
      trailing newline strips to the same fingerprint. */
  lemma StripPadded(a: string, f: string, b: string)
    requires AllSpace(a) && AllSpace(b) && Trimmed(f)
    ensures Strip(a + f + b) == f
  {
    if f == [] {
      assert a + f + b == (a + b) + "";
      LStripPadded(a + b, "");
      assert RStrip("") == "";
    } else {
      assert a + f + b == a + (f + b);
      LStripPadded(a, f + b);
      RStripPadded(f, b);
    }
  }

  lemma {:induction false} LStripPadded(a: string, t: string)
    requires AllSpace(a) && (t == [] || !IsSpace(t[0]))
    ensures LStrip(a + t) == t
  {
    if |a| == 0 {
      assert a + t == t;
    } else {
      assert (a + t)[0] == a[0] && (a + t)[1..] == a[1..] + t;
      LStripPadded(a[1..], t);
    }
  }

  lemma {:induction false} RStripPadded(t: string, b: string)
    requires AllSpace(b) && (t == [] || !IsSpace(t[|t| - 1]))
    ensures RStrip(t + b) == t
    decreases |b|
  {
    if |b| == 0 {
      assert t + b == t;
    } else {
      var s := t + b;
      assert s[|s| - 1] == b[|b| - 1] && s[..|s| - 1] == t + b[..|b| - 1];
      RStripPadded(t, b[..|b| - 1]);
    }
  }

  /** Stripping twice is stripping once. */
  lemma StripIdempotent(s: string)
    ensures Strip(Strip(s)) == Strip(s)
  {
    var f := Strip(s);
    assert f == "" + f + "";
    StripPadded("", f, "");
  }

  /** Python's `<` on `str`: lexicographic by code point, a proper prefix
      sorting first. */
  function Less(a: string, b: string): (r: bool)
    ensures a < b ==> r
    ensures b <= a ==> !r
    decreases |a|
  {
    if |a| == 0 then |b| > 0
    else if |b| == 0 then false
    else if a[0] == b[0] then Less(a[1..], b[1..])
    else a[0] < b[0]
  }

  lemma {:induction false} LessIrreflexive(a: string)
    ensures !Less(a, a)
    decreases |a|
  {
    if |a| > 0 { LessIrreflexive(a[1..]); }
  }

  lemma {:induction false} LessAsymmetric(a: string, b: string)
    requires Less(a, b)
    ensures !Less(b, a)
    decreases |a|
  {
    if |a| > 0 && |b| > 0 && a[0] == b[0] { LessAsymmetric(a[1..], b[1..]); }
  }

  lemma {:induction false} LessTransitive(a: string, b: string, c: string)
    requires Less(a, b) && Less(b, c)
    ensures Less(a, c)
    decreases |a|
  {
    if |a| > 0 && a[0] == b[0] && b[0] == c[0] {
      LessTransitive(a[1..], b[1..], c[1..]);
    }
  }

  lemma {:induction false} LessTotal(a: string, b: string)
    requires a != b
    ensures Less(a, b) || Less(b, a)
    decreases |a|
  {
    if |a| > 0 && |b| > 0 && a[0] == b[0] {
      assert a == [a[0]] + a[1..] && b == [b[0]] + b[1..];
      LessTotal(a[1..], b[1..]);
    }
  }
}
