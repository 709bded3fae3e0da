/** Sign ids `S<level>-<index>`: `String(n)`, `padStart` and the id built from
    them, with the decoding that shows two different (level, index) pairs in
    range never share an id. */
module SignIds {

  function DigitChar(d: nat): char
    requires d < 10
  {
    "0123456789"[d]
  }

  /** The digit a character stands for; 0 for any other character. */
  function DigitValue(c: char): nat
  {
    if '0' <= c <= '9' then (c as int - '0' as int) else 0
  }

  predicate AllDigits(s: string)
  {
    forall i :: 0 <= i < |s| ==> '0' <= s[i] <= '9'
  }

  /** `String(n)` for a non-negative integer below 10^21 (from 10^21 on the
      source's `String` switches to exponent notation, which ids never reach):
      its decimal digits, no leading zero. */
  function Decimal(n: nat): (s: string)
    ensures 1 <= |s| && AllDigits(s)
    ensures |s| > 1 ==> s[0] != '0'
    decreases n
  {
    if n < 10 then [DigitChar(n)] else Decimal(n / 10) + [DigitChar(n % 10)]
  }

  /** The number a string of decimal digits stands for. */
  function ValueOf(s: string): nat
  {
    if s == [] then 0 else ValueOf(s[..|s| - 1]) * 10 + DigitValue(s[|s| - 1])
  }

  /** `s.padStart(width, fill)` for a one-character `fill`. */
  function PadStart(s: string, width: nat, fill: char): (r: string)
    ensures |r| == if |s| >= width then |s| else width
    ensures r[|r| - |s|..] == s
    ensures forall i :: 0 <= i < |r| - |s| ==> r[i] == fill
  {
    if |s| >= width then s else seq(width - |s|, _ => fill) + s
  }

  /** `signId(levelNumber, runningIndex)`: an `S`, at least two level digits,
      a `-`, at least four index digits. */
  function SignId(level: nat, index: nat): (r: string)
    ensures |r| >= 8 && r[0] == 'S'
    ensures |r| >= |PadStart(Decimal(level), 2, '0')| + 6
    ensures r[|PadStart(Decimal(level), 2, '0')| + 1] == '-'
  {
    "S" + PadStart(Decimal(level), 2, '0') + "-" + PadStart(Decimal(index), 4, '0')
  }

  /** The level an id carries, read back from its two level digits. */
  function IdLevel(id: string): nat
  {
    if |id| < 3 then 0 else ValueOf(id[1..3])
  }

  /** The running index an id carries, read back from its four index digits. */
  function IdIndex(id: string): nat
  {
    if |id| < 8 then 0 else ValueOf(id[4..8])
  }

  // ---------------------------------------------------------------------------

  lemma {:induction false} DecimalRoundTrip(n: nat)
    ensures ValueOf(Decimal(n)) == n
    decreases n
  {
    if n >= 10 {
      var d := Decimal(n);
      DecimalRoundTrip(n / 10);
      assert d[..|d| - 1] == Decimal(n / 10);
    }
  }

  lemma {:induction false} DecimalWidth(n: nat, w: nat, p: nat)
    requires 1 <= w && p == Pow10(w) && n < p
    ensures |Decimal(n)| <= w
    decreases w
  {
    if n >= 10 {
      assert w > 1;
      DecimalWidth(n / 10, w - 1, Pow10(w - 1));
    }
  }

  function Pow10(w: nat): (p: nat)
    ensures p >= 1
  {
    if w == 0 then 1 else 10 * Pow10(w - 1)
  }

  /** Leading zeros do not change the value. */
  lemma {:induction false} ZerosDoNotCount(z: string, s: string)
    requires forall i :: 0 <= i < |z| ==> z[i] == '0'
    ensures ValueOf(z + s) == ValueOf(s)
    decreases |s|
  {
    if s == [] {
      assert z + s == z;
      ZerosAreZero(z);
    } else {
      assert (z + s)[..|z + s| - 1] == z + s[..|s| - 1];
      ZerosDoNotCount(z, s[..|s| - 1]);
    }
  }

  lemma {:induction false} ZerosAreZero(z: string)
    requires forall i :: 0 <= i < |z| ==> z[i] == '0'
    ensures ValueOf(z) == 0
  {
    if z != [] {
      ZerosAreZero(z[..|z| - 1]);
    }
  }

  /** A number below 10^w, padded to width w, is w digits that read back as it. */
  lemma PaddedReadsBack(n: nat, w: nat)
    requires 1 <= w && n < Pow10(w)
    ensures |PadStart(Decimal(n), w, '0')| == w
    ensures AllDigits(PadStart(Decimal(n), w, '0'))
    ensures ValueOf(PadStart(Decimal(n), w, '0')) == n
  {
    var d := Decimal(n);
    DecimalWidth(n, w, Pow10(w));
    DecimalRoundTrip(n);
    if |d| < w {
      ZerosDoNotCount(seq(w - |d|, _ => '0'), d);
    }
  }

  /** For a level below 100 and an index below 10000 the id is eight characters,
      `S`, two level digits, `-`, four index digits, and reads back as the pair. */
  lemma SignIdLayout(level: nat, index: nat)
    requires level < 100 && index < 10000
    ensures |SignId(level, index)| == 8
    ensures SignId(level, index)[0] == 'S' && SignId(level, index)[3] == '-'
    ensures AllDigits(SignId(level, index)[1..3]) && AllDigits(SignId(level, index)[4..8])
    ensures IdLevel(SignId(level, index)) == level
    ensures IdIndex(SignId(level, index)) == index
  {
    var l := PadStart(Decimal(level), 2, '0');
    var x := PadStart(Decimal(index), 4, '0');
    PaddedReadsBack(level, 2);
    PaddedReadsBack(index, 4);
    SliceLayout("S", l, "-", x);
  }

  lemma SliceLayout(a: string, l: string, b: string, x: string)
    requires |a| == 1 && |l| == 2 && |b| == 1 && |x| == 4
    ensures var id := a + l + b + x;
            |id| == 8 && id[0] == a[0] && id[3] == b[0] && id[1..3] == l && id[4..8] == x
  {
    var id := a + l + b + x;
    assert id[1..3] == l by {
      assert forall i :: 0 <= i < 2 ==> id[1 + i] == l[i];
    }
    assert id[4..8] == x by {
      assert forall i :: 0 <= i < 4 ==> id[4 + i] == x[i];
    }
  }

  /** Different (level, index) pairs in range give different ids. */
  lemma SignIdInjective(l1: nat, i1: nat, l2: nat, i2: nat)
    requires l1 < 100 && i1 < 10000 && l2 < 100 && i2 < 10000
    requires SignId(l1, i1) == SignId(l2, i2)
    ensures l1 == l2 && i1 == i2
  {
    SignIdLayout(l1, i1);
    SignIdLayout(l2, i2);
  }

  /** The id of the seventh level-1 sign. */
  lemma SignIdExample()
    ensures SignId(1, 7) == "S01-0007"
  {
    assert Decimal(1) == "1" && Decimal(7) == "7";
    assert seq(1, _ => '0') == "0";
    assert seq(3, _ => '0') == "000";
  }
}
