/** The few pieces of Java's runtime semantics the checker's logic depends on:
    `int` arithmetic, `Integer.toString`/`BigInteger.toString(radix)`,
    `String.indexOf`, `String.contains` and `String.trim`. */
module JavaLang {

  datatype Option<+T> = None | Some(value: T)

  /** The result of a Java call that either returns normally or throws. */
  datatype Outcome<+T> = Returned(value: T) | Threw

  const IntMin: int := -0x8000_0000
  const IntMax: int := 0x7FFF_FFFF

  /** `x` is a value of Java's 32-bit `int`. */
  predicate IsInt(x: int) {
    IntMin <= x <= IntMax
  }

  /** `x++` on a Java `int`: two's-complement addition of one. */
  function Increment(x: int): (r: int)
    requires IsInt(x)
    ensures IsInt(r)
    ensures (r - x - 1) % 0x1_0000_0000 == 0
    ensures x < IntMax ==> r == x + 1
  {
    if x == IntMax then IntMin else x + 1
  }

  /** `k` successive `x++`. */
  function IncrementTimes(x: int, k: nat): (r: int)
    requires IsInt(x)
    ensures IsInt(r)
  {
    if k == 0 then x else Increment(IncrementTimes(x, k - 1))
  }

  /** Away from the top of the range, `k` increments add exactly `k`. */
  lemma {:induction false} IncrementTimesAdds(x: int, k: nat)
    requires IsInt(x) && x + k <= IntMax
    ensures IncrementTimes(x, k) == x + k
  {
    if k > 0 {
      IncrementTimesAdds(x, k - 1);
    }
  }

  // ---------------------------------------------------------------------------
  // Rendering integers in a radix, as Integer.toString and BigInteger.toString do

  predicate IsRadix(radix: nat) {
    2 <= radix <= 36
  }

  /** `Character.forDigit`: digits 0-9 then lower-case letters. */
  function DigitChar(d: nat): char
    requires d < 36
  {
    if d < 10 then ('0' as int + d) as char else ('a' as int + d - 10) as char
  }

  /** `Character.digit(c, 36)`, or -1 when `c` is no digit. */
  function DigitValue(c: char): int {
    if '0' <= c <= '9' then c as int - '0' as int
    else if 'a' <= c <= 'z' then c as int - 'a' as int + 10
    else -1
  }

  lemma DigitCharValue(d: nat)
    requires d < 36
    ensures DigitValue(DigitChar(d)) == d
    ensures DigitChar(d) == '0' <==> d == 0
  {
  }

  lemma DivMod(n: nat, radix: nat)
    requires IsRadix(radix) && n >= radix
    ensures 1 <= n / radix < n && n % radix < radix
    ensures n == (n / radix) * radix + n % radix
  {
  }

  predicate IsDigitString(s: string, radix: nat) {
    forall i :: 0 <= i < |s| ==> 0 <= DigitValue(s[i]) < radix
  }

  /** The digits of `n` in `radix`, most significant first, without leading zeros. */
  function NatToDigits(n: nat, radix: nat): (s: string)
    requires IsRadix(radix)
    ensures |s| >= 1
    ensures IsDigitString(s, radix)
    ensures s[0] == '0' ==> n == 0
    decreases n
  {
    if n < radix then
      DigitCharValue(n);
      [DigitChar(n)]
    else
      DivMod(n, radix);
      var q, d := n / radix, n % radix;
      DigitCharValue(d);
      NatToDigits(q, radix) + [DigitChar(d)]
  }

  /** The value of a digit string, most significant digit first. */
  function DigitsToNat(s: string, radix: nat): nat
    requires IsRadix(radix) && IsDigitString(s, radix)
  {
    if s == [] then 0
    else DigitsToNat(s[..|s| - 1], radix) * radix + DigitValue(s[|s| - 1])
  }

  lemma {:induction false} DigitsRoundTrip(n: nat, radix: nat)
    requires IsRadix(radix)
    ensures DigitsToNat(NatToDigits(n, radix), radix) == n
    decreases n
  {
    var s := NatToDigits(n, radix);
    if n < radix {
      DigitCharValue(n);
    } else {
      DivMod(n, radix);
      DigitCharValue(n % radix);
      var front := NatToDigits(n / radix, radix);
      DigitsRoundTrip(n / radix, radix);
      assert s[..|s| - 1] == front;
    }
  }

  /** `Integer.toString(x, radix)` and `BigInteger.toString(radix)`: a minus
      sign for negative values, then the digits of the magnitude. */
  function ToJavaString(x: int, radix: nat): (s: string)
    requires IsRadix(radix)
    ensures |s| >= 1
    ensures s[0] == '-' <==> x < 0
    ensures x >= 0 ==> IsDigitString(s, radix)
    ensures x < 0 ==> IsDigitString(s[1..], radix)
  {
    if x < 0 then "-" + NatToDigits(-x, radix) else NatToDigits(x, radix)
  }

  /** `Integer.parseInt(s, radix)` on the strings ToJavaString produces. */
  function ParseJavaString(s: string, radix: nat): int
    requires IsRadix(radix) && |s| >= 1
    requires if s[0] == '-' then IsDigitString(s[1..], radix) else IsDigitString(s, radix)
  {
    if s[0] == '-' then -(DigitsToNat(s[1..], radix) as int) else DigitsToNat(s, radix)
  }

  lemma {:induction false} ToJavaStringRoundTrip(x: int, radix: nat)
    requires IsRadix(radix)
    ensures ParseJavaString(ToJavaString(x, radix), radix) == x
  {
    if x < 0 {
      DigitsRoundTrip(-x, radix);
      assert ToJavaString(x, radix)[1..] == NatToDigits(-x, radix);
    } else {
      DigitsRoundTrip(x, radix);
    }
  }

  /** Distinct numbers never render to the same string. */
  lemma ToJavaStringInjective(x: int, y: int, radix: nat)
    requires IsRadix(radix)
    ensures ToJavaString(x, radix) == ToJavaString(y, radix) <==> x == y
  {
    ToJavaStringRoundTrip(x, radix);
    ToJavaStringRoundTrip(y, radix);
  }

  // ---------------------------------------------------------------------------
  // java.lang.String

  /** `s.indexOf(c)`: the first position of `c`, or -1. */
  function IndexOf(s: string, c: char): (r: int)
    ensures -1 <= r < |s|
    ensures r == -1 <==> c !in s
    ensures r >= 0 ==> s[r] == c && c !in s[..r]
  {
    if s == [] then -1
    else if s[0] == c then 0
    else
      var k := IndexOf(s[1..], c);
      if k == -1 then -1 else k + 1
  }

  /** `sub` occurs in `s` starting at position `i`. */
  predicate OccursAt(s: string, sub: string, i: int) {
    0 <= i && i + |sub| <= |s| && s[i..i + |sub|] == sub
  }

  /** `s.contains(sub)`. */
  function Contains(s: string, sub: string): (r: bool)
    ensures r <==> exists i :: OccursAt(s, sub, i)
    ensures r ==> |sub| <= |s|
  {
    if |s| < |sub| then false
    else if s[..|sub|] == sub then
      assert OccursAt(s, sub, 0);
      true
    else
      var r := Contains(s[1..], sub);
      if r then
        var i :| OccursAt(s[1..], sub, i);
        assert OccursAt(s, sub, i + 1);
        true
      else
        assert forall i :: OccursAt(s, sub, i) ==> i > 0 && OccursAt(s[1..], sub, i - 1);
        false
  }

  /** `String.trim` removes every character up to U+0020 from both ends. */
  predicate IsTrimmable(c: char) {
    c <= ' '
  }

  function TrimStart(s: string): (r: string)
    ensures |r| <= |s| && r == s[|s| - |r|..]
    ensures forall k :: 0 <= k < |s| - |r| ==> IsTrimmable(s[k])
    ensures r != [] ==> !IsTrimmable(r[0])
  {
    if s != [] && IsTrimmable(s[0]) then TrimStart(s[1..]) else s
  }

  function TrimEnd(s: string): (r: string)
    ensures |r| <= |s| && r == s[..|r|]
    ensures forall k :: |r| <= k < |s| ==> IsTrimmable(s[k])
    ensures r != [] ==> !IsTrimmable(r[|r| - 1])
  {
    if s != [] && IsTrimmable(s[|s| - 1]) then TrimEnd(s[..|s| - 1]) else s
  }

  /** `r` is the piece of `s` at `i`, with only trimmable characters around it. */
  predicate TrimmedAt(s: string, r: string, i: int) {
    0 <= i && i + |r| <= |s| && r == s[i..i + |r|]
    && (forall k :: 0 <= k < i ==> IsTrimmable(s[k]))
    && (forall k :: i + |r| <= k < |s| ==> IsTrimmable(s[k]))
  }

  /** `s.trim()`. */
  function Trim(s: string): (r: string)
    ensures |r| <= |s|
    ensures r != [] ==> !IsTrimmable(r[0]) && !IsTrimmable(r[|r| - 1])
  {
    TrimEnd(TrimStart(s))
  }

  /** A piece `r` at the start of `s[i..]`, followed only by trimmable characters there. */
  lemma PieceOfSuffix(s: string, i: int, r: string)
    requires 0 <= i <= |s| && |r| <= |s| - i && r == s[i..][..|r|]
    requires forall k :: |r| <= k < |s| - i ==> IsTrimmable(s[i..][k])
    ensures r == s[i..i + |r|]
    ensures forall k :: i + |r| <= k < |s| ==> IsTrimmable(s[k])
  {
    forall k | i + |r| <= k < |s|
      ensures IsTrimmable(s[k])
    {
      assert s[k] == s[i..][k - i];
    }
  }

  /** `trim` removes only trimmable characters, and only from the two ends. */
  lemma TrimmedFrom(s: string)
    ensures exists i :: TrimmedAt(s, Trim(s), i)
  {
    var front := TrimStart(s);
    var i := |s| - |front|;
    PieceOfSuffix(s, i, Trim(s));
    assert TrimmedAt(s, Trim(s), i);
  }

  /** Trimming twice is trimming once. */
  lemma TrimIdempotent(s: string)
    ensures Trim(Trim(s)) == Trim(s)
  {
    var r := Trim(s);
    TrimmedFrom(r);
    var i :| TrimmedAt(r, Trim(r), i);
  }
}
