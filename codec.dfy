/** The two views of a state key: the number the solver uses as a map key
    (`parseInt` of the concatenated digits, solver.js:29, solver.js:71,
    script.js:210) and the nine-digit text it works on (`toString().padStart(9, "0")`,
    solver.js:9). A board whose first cell is the blank has a number with only
    eight digits, so the padding is what keeps the leading blank. */
module StateCodec {

  import opened Board

  function Pow10(k: nat): (r: nat)
    ensures r >= 1
  {
    if k == 0 then 1 else 10 * Pow10(k - 1)
  }

  /** parseInt of the concatenated digits: the digits read as a decimal number. */
  function Encode(s: seq<int>): (r: nat)
    requires IsDigits(s)
  {
    if s == [] then 0 else Encode(s[..|s| - 1]) * 10 + s[|s| - 1]
  }

  /** Number.prototype.toString(): the decimal digits of n, without leading zeros. */
  function ToDecimal(n: nat): (r: seq<int>)
    ensures |r| >= 1 && IsDigits(r)
    ensures |r| > 1 ==> r[0] != 0
  {
    if n < 10 then [n] else ToDecimal(n / 10) + [n % 10]
  }

  /** String.prototype.padStart(w, "0"). */
  function PadStart(s: seq<int>, w: nat): (r: seq<int>)
    ensures |r| == if |s| >= w then |s| else w
    ensures r[|r| - |s|..] == s
    ensures forall i :: 0 <= i < |r| - |s| ==> r[i] == 0
  {
    if |s| >= w then s else seq(w - |s|, _ => 0) + s
  }

  /** solver.js:9: the nine-digit text of a numeric key. */
  function Decode(n: nat): (r: Key)
    ensures n < 1_000_000_000 ==> |r| == 9
  {
    DecimalLength(n);
    PadStart(ToDecimal(n), 9)
  }

  lemma {:induction false} EncodeAllZero(s: seq<int>)
    requires IsDigits(s) && Encode(s) == 0
    ensures forall i :: 0 <= i < |s| ==> s[i] == 0
  {
    if s != [] {
      EncodeAllZero(s[..|s| - 1]);
    }
  }

  lemma DivMod10(e: nat, c: int)
    requires 0 <= c <= 9
    ensures (e * 10 + c) / 10 == e && (e * 10 + c) % 10 == c
  {
  }

  /** Reading the digits back after padding gives the digits themselves, whatever
      number of leading zeros they have. */
  lemma {:induction false} PadDecimal(s: seq<int>)
    requires |s| >= 1 && IsDigits(s)
    ensures PadStart(ToDecimal(Encode(s)), |s|) == s
  {
    if |s| == 1 {
      PadSingle(s);
    } else {
      EncodeLast(s);
      PadDecimal(s[..|s| - 1]);
      PadSplit(s);
    }
  }

  lemma PadSingle(s: seq<int>)
    requires |s| == 1 && IsDigits(s)
    ensures PadStart(ToDecimal(Encode(s)), |s|) == s
  {
    EncodeLast(s);
    assert Encode(s) == s[0];
    assert [s[0]] == s;
  }

  /** The inductive step: padding the text of a number with one more digit. */
  lemma PadSplit(s: seq<int>)
    requires |s| >= 2 && IsDigits(s)
    requires IsDigits(s[..|s| - 1])
    requires PadStart(ToDecimal(Encode(s[..|s| - 1])), |s| - 1) == s[..|s| - 1]
    ensures PadStart(ToDecimal(Encode(s)), |s|) == s
  {
    var p, c := s[..|s| - 1], s[|s| - 1];
    EncodeLast(s);
    LastSplit(s);
    PadNext(p, c);
    var n := Encode(p) * 10 + c;
    assert Encode(s) == n && |s| == |p| + 1;
    assert PadStart(ToDecimal(n), |p| + 1) == s;
  }

  lemma PadNext(p: seq<int>, c: int)
    requires |p| >= 1 && IsDigits(p) && 0 <= c <= 9
    requires PadStart(ToDecimal(Encode(p)), |p|) == p
    ensures PadStart(ToDecimal(Encode(p) * 10 + c), |p| + 1) == p + [c]
  {
    if Encode(p) == 0 {
      PadZeroPrefix(p, c);
    } else {
      PadDigit(p, c);
    }
  }

  /** The last digit of a number's text is its units digit. */
  lemma EncodeLast(s: seq<int>)
    requires |s| >= 1 && IsDigits(s)
    ensures IsDigits(s[..|s| - 1])
    ensures Encode(s) == Encode(s[..|s| - 1]) * 10 + s[|s| - 1]
  {
    var p := s[..|s| - 1];
    assert IsDigits(p) by {
      forall i | 0 <= i < |p| ensures 0 <= p[i] <= 9 { assert p[i] == s[i]; }
    }
  }

  lemma LastSplit(s: seq<int>)
    requires |s| >= 1
    ensures s == s[..|s| - 1] + [s[|s| - 1]]
  {
  }

  /** The padded text of a number whose leading digits are all zero. */
  lemma PadZeroPrefix(p: seq<int>, c: int)
    requires |p| >= 1 && IsDigits(p) && 0 <= c <= 9 && Encode(p) == 0
    ensures PadStart(ToDecimal(Encode(p) * 10 + c), |p| + 1) == p + [c]
  {
    EncodeAllZero(p);
    assert ToDecimal(Encode(p) * 10 + c) == [c];
    assert PadStart([c], |p| + 1) == seq(|p|, _ => 0) + [c];
    assert p == seq(|p|, _ => 0);
  }

  /** One more digit after a number with a significant digit. */
  lemma PadDigit(p: seq<int>, c: int)
    requires |p| >= 1 && IsDigits(p) && 0 <= c <= 9 && Encode(p) != 0
    requires PadStart(ToDecimal(Encode(p)), |p|) == p
    ensures PadStart(ToDecimal(Encode(p) * 10 + c), |p| + 1) == p + [c]
  {
    var x := ToDecimal(Encode(p));
    ToDecimalStep(Encode(p), c);
    PadAppend(x, c, |p|);
  }

  /** The text of e * 10 + c is the text of e followed by the digit c. */
  lemma ToDecimalStep(e: nat, c: int)
    requires e >= 1 && 0 <= c <= 9
    ensures ToDecimal(e * 10 + c) == ToDecimal(e) + [c]
  {
    DivMod10(e, c);
  }

  /** Padding commutes with appending a digit. */
  lemma PadAppend(x: seq<int>, c: int, w: nat)
    requires |x| <= w
    ensures PadStart(x + [c], w + 1) == PadStart(x, w) + [c]
  {
    if |x| < w {
      var z := seq(w - |x|, _ => 0);
      assert PadStart(x, w) == z + x;
      assert PadStart(x + [c], w + 1) == z + (x + [c]);
      assert z + (x + [c]) == (z + x) + [c];
    }
  }

  /** Round trip from a board: the padded text of a board's number is the board,
      also when its first cell is the blank. */
  lemma DecodeEncode(s: seq<int>)
    requires |s| == 9 && IsDigits(s)
    ensures Encode(s) < 1_000_000_000
    ensures Decode(Encode(s)) == s
  {
    PadDecimal(s);
    EncodeBound(s);
    assert Pow10(9) == 1_000_000_000;
  }

  /** A number written with k digits is below 10^k. */
  lemma {:induction false} EncodeBound(s: seq<int>)
    requires IsDigits(s)
    ensures Encode(s) < Pow10(|s|)
  {
    if s != [] {
      var p := s[..|s| - 1];
      EncodeLast(s);
      EncodeBound(p);
      assert Encode(p) * 10 <= (Pow10(|p|) - 1) * 10;
    }
  }

  /** Leading zeros do not change the number. */
  lemma {:induction false} EncodeLeadingZeros(k: nat, d: seq<int>)
    requires IsDigits(d)
    ensures IsDigits(seq(k, _ => 0) + d)
    ensures Encode(seq(k, _ => 0) + d) == Encode(d)
  {
    var z := seq(k, _ => 0);
    if d == [] {
      assert z + d == z;
      EncodeAllZeroBack(k);
    } else {
      var d' := d[..|d| - 1];
      EncodeLeadingZeros(k, d');
      assert (z + d)[..|z + d| - 1] == z + d';
    }
  }

  lemma {:induction false} EncodeAllZeroBack(k: nat)
    ensures IsDigits(seq(k, _ => 0))
    ensures Encode(seq(k, _ => 0)) == 0
  {
    if k > 0 {
      EncodeAllZeroBack(k - 1);
      assert seq(k, _ => 0)[..k - 1] == seq(k - 1, _ => 0);
    }
  }

  lemma {:induction false} EncodeDecimal(n: nat)
    ensures Encode(ToDecimal(n)) == n
  {
    if n >= 10 {
      EncodeDecimal(n / 10);
      var r := ToDecimal(n);
      assert r[..|r| - 1] == ToDecimal(n / 10);
    }
  }

  /** A number with k decimal digits is at least 10^(k-1). */
  lemma {:induction false} DecimalLower(n: nat)
    ensures n == 0 || Pow10(|ToDecimal(n)| - 1) <= n
  {
    if n >= 10 {
      DecimalLower(n / 10);
    }
  }

  /** Round trip from a number: every number below 10^9 is the key of its padded
      text, so numeric keys and nine-digit keys are in one-to-one correspondence. */
  lemma EncodeDecode(n: nat)
    requires n < 1_000_000_000
    ensures |Decode(n)| == 9 && IsDigits(Decode(n))
    ensures Encode(Decode(n)) == n
  {
    var d := ToDecimal(n);
    DecimalLength(n);
    EncodeDecimal(n);
    EncodeLeadingZeros(9 - |d|, d);
    assert Decode(n) == seq(9 - |d|, _ => 0) + d;
  }

  lemma DecimalLength(n: nat)
    ensures n < 1_000_000_000 ==> |ToDecimal(n)| <= 9
  {
    DecimalLower(n);
    assert Pow10(9) == 1_000_000_000;
    if |ToDecimal(n)| > 9 {
      Pow10Monotone(9, |ToDecimal(n)| - 1);
    }
  }

  lemma {:induction false} Pow10Monotone(a: nat, b: nat)
    requires a <= b
    ensures Pow10(a) <= Pow10(b)
  {
    if a < b {
      Pow10Monotone(a, b - 1);
    }
  }

  /** The text of a number, unpadded, has no blank digit when the board's first
      cell is the blank: the leading zero is lost (script.js:217). */
  lemma LeadingBlankLost(s: seq<int>)
    requires IsPermutation(s) && s[0] == 0
    ensures 0 !in ToDecimal(Encode(s))
    ensures |ToDecimal(Encode(s))| == 8
  {
    var d := ToDecimal(Encode(s));
    DecodeEncode(s);
    assert PadStart(d, 9) == s;
    assert |d| < 9;
    assert |d| >= 8 by {
      assert s[0] != s[1];
      assert forall i :: 0 <= i < 9 - |d| ==> s[i] == 0;
    }
    assert d == s[1..];
  }

  /** The default goal 123456780 of solver.js:118 and script.js:211 is the solved board. */
  lemma GoalKey()
    ensures Encode(Solved) == 123456780
    ensures Decode(123456780) == Solved
  {
    EncodeSolved();
    DecodeEncode(Solved);
  }

  lemma EncodeSolved()
    ensures Encode(Solved) == 123456780
  {
    EncodeDecimal(123456780);
    SolvedDecimal();
  }

  /** The text of 123456780, one digit at a time. */
  lemma SolvedDecimal()
    ensures ToDecimal(123456780) == Solved
  {
    ToDecimalStep(1, 2);
    ToDecimalStep(12, 3);
    ToDecimalStep(123, 4);
    ToDecimalStep(1234, 5);
    ToDecimalStep(12345, 6);
    ToDecimalStep(123456, 7);
    ToDecimalStep(1234567, 8);
    ToDecimalStep(12345678, 0);
    assert [1] + [2] + [3] + [4] + [5] + [6] + [7] + [8] + [0] == Solved;
  }
}
