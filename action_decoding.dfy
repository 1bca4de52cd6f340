/** Decoding of a discrete drone action into one on/off flag per motor.

    The environment turns an integer action into flags with
    `[int(x) for x in list(bin(action)[2:].zfill(n))]`, where n is the number
    of motors. This module models each of those Python built-ins on strings
    and proves what the composition computes: for 0 <= action < 2^n exactly n
    bits, most significant first, that read back as the action.
 */
module ActionDecoding {

  datatype Option<T> = None | Some(value: T)

  /** 2^n, the size of the action space for n motors. */
  function Pow2(n: nat): (r: nat)
    ensures r >= 1
  {
    if n == 0 then 1 else 2 * Pow2(n - 1)
  }

  /** The digits Python's `bin` writes after its prefix for a non-negative
      integer: most significant first, with no leading zero except for 0. */
  function BinaryDigits(a: nat): (r: string)
    ensures |r| >= 1
    ensures forall i :: 0 <= i < |r| ==> r[i] == '0' || r[i] == '1'
    ensures a < Pow2(|r|)
    ensures a > 0 ==> r[0] == '1'
    decreases a
  {
    if a < 2 then [if a == 0 then '0' else '1']
    else BinaryDigits(a / 2) + [if a % 2 == 0 then '0' else '1']
  }

  /** Python's `bin(a)`: an optional minus sign, the prefix "0b", then the
      binary digits of the magnitude. */
  function Bin(a: int): (r: string)
    ensures |r| >= 3
  {
    if a < 0 then "-0b" + BinaryDigits(-a) else "0b" + BinaryDigits(a)
  }

  function Zeros(k: nat): (r: string)
    ensures |r| == k && forall i :: 0 <= i < k ==> r[i] == '0'
  {
    seq(k, _ => '0')
  }

  /** Python's `str.zfill(width)`: pads on the left with '0' up to `width`
      characters, keeping a leading '+' or '-' in front of the padding. */
  function ZFill(s: string, width: nat): (r: string)
    ensures |r| == if |s| >= width then |s| else width
  {
    if |s| >= width then s
    else if |s| > 0 && (s[0] == '+' || s[0] == '-') then [s[0]] + Zeros(width - |s|) + s[1..]
    else Zeros(width - |s|) + s
  }

  /** Python's `int(c)` on a one-character string: the value of a decimal
      digit, or None where `int` raises a ValueError. */
  function DigitValue(c: char): (r: Option<int>)
    ensures r.Some? <==> '0' <= c <= '9'
    ensures r.Some? ==> 0 <= r.value <= 9
  {
    if '0' <= c <= '9' then Some(c as int - '0' as int) else None
  }

  /** `[int(x) for x in list(s)]`: None as soon as one character is not a
      digit (the comprehension raises), else the digit values in order. */
  function ParseDigits(s: string): (r: Option<seq<int>>)
    ensures r.Some? ==> |r.value| == |s| && forall i :: 0 <= i < |s| ==> DigitValue(s[i]) == Some(r.value[i])
    ensures r.None? ==> exists i :: 0 <= i < |s| && DigitValue(s[i]).None?
  {
    if s == [] then Some([])
    else
      match (DigitValue(s[0]), ParseDigits(s[1..]))
      case (Some(d), Some(rest)) => Some([d] + rest)
      case (None, _) => None
      case (_, None) =>
        assert forall i :: 0 <= i < |s| - 1 ==> s[1..][i] == s[i + 1];
        None
  }

  /** The motor flags of `action` for `motorCount` motors (drone_env.py
      line 149); None where the Python expression raises. */
  function DecodeAction(action: int, motorCount: nat): (r: Option<seq<int>>)
    ensures r.Some? ==> |r.value| >= motorCount
  {
    ParseDigits(ZFill(Bin(action)[2..], motorCount))
  }

  // ---------------------------------------------------------------------
  // The reference reading of an action: fixed-width binary.

  predicate IsBits(f: seq<int>)
  {
    forall i :: 0 <= i < |f| ==> f[i] == 0 || f[i] == 1
  }

  /** The value of a flag sequence read as binary, first flag most significant. */
  function FromBits(f: seq<int>): int
  {
    if f == [] then 0 else 2 * FromBits(f[..|f| - 1]) + f[|f| - 1]
  }

  /** The n-bit binary representation of a, most significant bit first. */
  function ToBits(a: nat, n: nat): (r: seq<int>)
    ensures |r| == n && IsBits(r)
  {
    if n == 0 then [] else ToBits(a / 2, n - 1) + [a % 2]
  }

  /** a shifted right by m bits. */
  function Shr(a: nat, m: nat): nat
  {
    if m == 0 then a else Shr(a / 2, m - 1)
  }

  /** The characters '0' and '1' that spell a flag sequence. */
  function BitChars(f: seq<int>): (r: string)
    ensures |r| == |f|
  {
    seq(|f|, i requires 0 <= i < |f| => if f[i] == 0 then '0' else '1')
  }

  lemma {:induction false} FromToBits(a: nat, n: nat)
    requires a < Pow2(n)
    ensures FromBits(ToBits(a, n)) == a
  {
    if n > 0 {
      FromToBits(a / 2, n - 1);
      var t := ToBits(a, n);
      assert t[..n - 1] == ToBits(a / 2, n - 1);
    }
  }

  lemma {:induction false} ToFromBits(f: seq<int>)
    requires IsBits(f)
    ensures 0 <= FromBits(f) < Pow2(|f|)
    ensures ToBits(FromBits(f), |f|) == f
  {
    if f != [] {
      var init := f[..|f| - 1];
      ToFromBits(init);
      var v := FromBits(f);
      assert v / 2 == FromBits(init) && v % 2 == f[|f| - 1];
      assert f == init + [f[|f| - 1]];
    }
  }

  lemma ParseBitChars(f: seq<int>)
    requires IsBits(f)
    ensures ParseDigits(BitChars(f)) == Some(f)
  {
    var r := ParseDigits(BitChars(f));
    assert forall i :: 0 <= i < |f| ==> DigitValue(BitChars(f)[i]) == Some(f[i]);
    assert r.Some?;
    assert r.value == f;
  }

  lemma {:induction false} ZerosBits(k: nat)
    ensures ToBits(0, k) == seq(k, _ => 0)
  {
    if k > 0 {
      ZerosBits(k - 1);
    }
  }

  /** Appending a digit commutes with padding to one more character. */
  lemma ZFillAppend(s: string, c: char, width: nat)
    requires |s| > 0 && s[0] != '+' && s[0] != '-'
    requires width >= 1
    ensures ZFill(s + [c], width) == ZFill(s, width - 1) + [c]
  {
    if |s| + 1 < width {
      assert Zeros(width - |s| - 1) == Zeros(width - 1 - |s|);
    }
  }

  /** Padding the binary digits of a < 2^n to n characters spells its n-bit
      representation. */
  lemma {:induction false} DigitsAsBits(a: nat, n: nat)
    requires 1 <= n && a < Pow2(n)
    ensures ZFill(BinaryDigits(a), n) == BitChars(ToBits(a, n))
    decreases n
  {
    if a < 2 {
      ZerosBits(n - 1);
      assert ToBits(a, n) == ToBits(0, n - 1) + [a];
    } else {
      assert n >= 2;
      var d := if a % 2 == 0 then '0' else '1';
      DigitsAsBits(a / 2, n - 1);
      ZFillAppend(BinaryDigits(a / 2), d, n);
      assert BitChars(ToBits(a, n)) == BitChars(ToBits(a / 2, n - 1)) + [d];
    }
  }

  /** For a valid action (0 <= action < 2^n) decoding yields exactly the n-bit
      representation: n flags, each 0 or 1, which read back as the action. */
  lemma DecodeValid(action: int, n: nat)
    requires 1 <= n && 0 <= action < Pow2(n)
    ensures DecodeAction(action, n) == Some(ToBits(action, n))
    ensures |DecodeAction(action, n).value| == n
    ensures IsBits(DecodeAction(action, n).value)
    ensures FromBits(DecodeAction(action, n).value) == action
  {
    assert Bin(action)[2..] == BinaryDigits(action);
    DigitsAsBits(action, n);
    ParseBitChars(ToBits(action, n));
    FromToBits(action, n);
  }

  /** The other round trip: encoding n flags as an action and decoding it
      gives the flags back, leading zeros included. */
  lemma DecodeEncode(f: seq<int>)
    requires |f| >= 1 && IsBits(f)
    ensures DecodeAction(FromBits(f), |f|) == Some(f)
  {
    ToFromBits(f);
    DecodeValid(FromBits(f), |f|);
  }

  /** Decoding fails (the Python expression raises on the 'b' of "-0b")
      exactly for negative actions. */
  lemma DecodeFailsIffNegative(action: int, n: nat)
    ensures DecodeAction(action, n).None? <==> action < 0
  {
    var s := Bin(action)[2..];
    var z := ZFill(s, n);
    if action < 0 {
      assert s[0] == 'b';
      var j := |z| - |s|;
      assert z[j] == 'b';
      assert DigitValue(z[j]).None?;
    } else {
      assert s == BinaryDigits(action);
      assert forall i :: 0 <= i < |z| ==> z[i] == '0' || z[i] == '1';
    }
  }

  /** Bits that are not read: for an action of 2^n or more the flag list is
      the action's full binary representation, longer than n, and the first
      n flags (the only ones the motors read) are the action's top n bits. */
  lemma DecodeOversized(action: nat, n: nat) returns (width: nat)
    requires 1 <= n && action >= Pow2(n)
    ensures width == |BinaryDigits(action)| && width > n
    ensures DecodeAction(action, n) == Some(ToBits(action, width))
    ensures FromBits(ToBits(action, width)) == action
    ensures ToBits(action, width)[..n] == ToBits(Shr(action, width - n), n)
  {
    var digits := BinaryDigits(action);
    width := |digits|;
    Pow2Monotone(width, n);
    var bits := ToBits(action, width);
    assert DecodeAction(action, n) == ParseDigits(digits) by {
      assert Bin(action)[2..] == digits;
    }
    assert digits == BitChars(bits) by {
      DigitsAsBits(action, width);
    }
    ParseBitChars(bits);
    FromToBits(action, width);
    var top := Shr(action, width - n);
    assert bits[..n] == ToBits(top, n) by {
      TopBits(action, width, n);
    }
  }

  lemma {:induction false} Pow2Monotone(m: nat, n: nat)
    requires Pow2(n) < Pow2(m)
    ensures n < m
  {
    if n >= m {
      Pow2Grows(m, n);
    }
  }

  lemma {:induction false} Pow2Grows(m: nat, n: nat)
    requires m <= n
    ensures Pow2(m) <= Pow2(n)
    decreases n
  {
    if m < n {
      Pow2Grows(m, n - 1);
    }
  }

  /** The first n of the m bits of a are the n bits of a >> (m - n). */
  lemma {:induction false} TopBits(a: nat, m: nat, n: nat)
    requires n <= m
    ensures ToBits(a, m)[..n] == ToBits(Shr(a, m - n), n)
    decreases m
  {
    if m > n {
      TopBits(a / 2, m - 1, n);
      assert ToBits(a, m)[..m - 1] == ToBits(a / 2, m - 1);
      assert ToBits(a, m)[..n] == ToBits(a, m)[..m - 1][..n];
    }
  }


  /** The decodings the environment's two-motor layout relies on. */
  lemma TwoMotorExamples()
    ensures DecodeAction(0, 2) == Some([0, 0])
    ensures DecodeAction(1, 2) == Some([0, 1])
    ensures DecodeAction(2, 2) == Some([1, 0])
    ensures DecodeAction(3, 2) == Some([1, 1])
  {
    assert ToBits(0, 2) == [0, 0] && ToBits(1, 2) == [0, 1];
    assert ToBits(2, 2) == [1, 0] && ToBits(3, 2) == [1, 1];
    DecodeValid(0, 2);
    DecodeValid(1, 2);
    DecodeValid(2, 2);
    DecodeValid(3, 2);
  }
}
