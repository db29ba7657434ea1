/** Printing and parsing numbers and bytes, and cutting strings at a separator. */
module Text {
  import opened LibraryStore

  // --- decimal numbers -----------------------------------------------------------

  function Digit(d: nat): char
    requires d < 10
  {
    '0' + d as char
  }

  predicate IsDigit(c: char) {
    '0' <= c <= '9'
  }

  predicate AllDigits(s: string) {
    forall c | c in s :: IsDigit(c)
  }

  function Decimal(n: nat): string {
    if n < 10 then [Digit(n)] else Decimal(n / 10) + [Digit(n % 10)]
  }

  function Value(s: string): nat
    requires AllDigits(s)
  {
    if s == [] then 0
    else
      assert IsDigit(s[|s| - 1]);
      10 * Value(s[..|s| - 1]) + (s[|s| - 1] as int - '0' as int)
  }

  lemma {:induction false} DecimalReadsBack(n: nat)
    ensures Decimal(n) != [] && AllDigits(Decimal(n)) && Value(Decimal(n)) == n
  {
    if n < 10 {
      assert [Digit(n)][..0] == [];
    } else {
      DecimalReadsBack(n / 10);
      assert Decimal(n)[..|Decimal(n)| - 1] == Decimal(n / 10);
    }
  }

  /** No leading zeros: a number is printed in the shortest way. */
  lemma {:induction false} DecimalIsShortest(n: nat)
    ensures n > 0 ==> Decimal(n)[0] != '0'
    ensures Decimal(0) == "0"
  {
    if n >= 10 {
      DecimalIsShortest(n / 10);
    }
  }

  lemma DecimalInjective(m: nat, n: nat)
    requires Decimal(m) == Decimal(n)
    ensures m == n
  {
    DecimalReadsBack(m);
    DecimalReadsBack(n);
  }

  // --- bytes in hexadecimal --------------------------------------------------------

  function HexDigit(d: nat): char
    requires d < 16
  {
    if d < 10 then '0' + d as char else 'a' + (d - 10) as char
  }

  function Nibble(c: char): Option<nat> {
    if '0' <= c <= '9' then Some(c as nat - '0' as nat)
    else if 'a' <= c <= 'f' then Some(c as nat - 'a' as nat + 10)
    else None
  }

  function Hex(bytes: Bytes): string {
    if bytes == [] then [] else Hex(bytes[..|bytes| - 1]) + [HexDigit(bytes[|bytes| - 1] / 16), HexDigit(bytes[|bytes| - 1] % 16)]
  }

  /** The digits of `Hex` read back, two by two, with a reader for one pair. */
  function Pairs(read: (char, char) -> Option<Byte>, s: string, n: nat): Option<Bytes>
    requires 2 * n <= |s|
  {
    if n == 0 then Some([])
    else
      match (Pairs(read, s, n - 1), read(s[2 * n - 2], s[2 * n - 1]))
      case (Some(bytes), Some(b)) => Some(bytes + [b])
      case _ => None
  }

  /** Two lower-case digits. */
  function StrictPair(a: char, b: char): Option<Byte> {
    match (Nibble(a), Nibble(b))
    case (Some(x), Some(y)) => if x < 16 && y < 16 then Some(16 * x + y) else None
    case _ => None
  }

  predicate ReadsHex(read: (char, char) -> Option<Byte>) {
    forall b: Byte :: read(HexDigit(b / 16), HexDigit(b % 16)) == Some(b)
  }

  lemma NibbleReads(d: nat)
    requires d < 16
    ensures Nibble(HexDigit(d)) == Some(d)
  {
  }

  lemma PairReads(b: Byte)
    ensures StrictPair(HexDigit(b / 16), HexDigit(b % 16)) == Some(b)
  {
    var (x, y) := (b / 16, b % 16);
    NibbleReads(x);
    NibbleReads(y);
    hide Nibble, HexDigit;
    assert 16 * x + y == b;
  }

  lemma StrictPairReadsHex()
    ensures ReadsHex(StrictPair)
  {
    hide StrictPair, HexDigit;
    forall b: Byte
      ensures StrictPair(HexDigit(b / 16), HexDigit(b % 16)) == Some(b)
    {
      PairReads(b);
    }
  }

  lemma NibbleIsDigit(c: char)
    requires Nibble(c).Some?
    ensures Nibble(c).value < 16 && HexDigit(Nibble(c).value) == c
  {
  }

  lemma PairIsHex(a: char, b: char)
    requires StrictPair(a, b).Some?
    ensures var x := StrictPair(a, b).value; a == HexDigit(x / 16) && b == HexDigit(x % 16)
  {
    NibbleIsDigit(a);
    NibbleIsDigit(b);
    hide Nibble, HexDigit;
  }

  lemma {:induction false} HexReadsBack(read: (char, char) -> Option<Byte>, bytes: Bytes)
    requires ReadsHex(read)
    ensures |Hex(bytes)| == 2 * |bytes| && Pairs(read, Hex(bytes), |bytes|) == Some(bytes)
  {
    if bytes != [] {
      var init := bytes[..|bytes| - 1];
      HexReadsBack(read, init);
      PairsPrefix(read, Hex(init), Hex(bytes), |init|);
      assert bytes == init + [bytes[|bytes| - 1]];
    }
  }

  lemma {:induction false} PairsPrefix(read: (char, char) -> Option<Byte>, s: string, t: string, n: nat)
    requires 2 * n <= |s| && s <= t
    ensures Pairs(read, s, n) == Pairs(read, t, n)
  {
    if n > 0 {
      PairsPrefix(read, s, t, n - 1);
    }
  }

  lemma {:induction false} StrictPairsAreHex(s: string, n: nat)
    requires 2 * n <= |s| && Pairs(StrictPair, s, n).Some?
    ensures |Pairs(StrictPair, s, n).value| == n && Hex(Pairs(StrictPair, s, n).value) == s[..2 * n]
  {
    if n > 0 {
      StrictPairsAreHex(s, n - 1);
      PairIsHex(s[2 * n - 2], s[2 * n - 1]);
      hide StrictPair, HexDigit;
      var bytes := Pairs(StrictPair, s, n - 1).value;
      assert (bytes + [StrictPair(s[2 * n - 2], s[2 * n - 1]).value])[..n - 1] == bytes;
      assert s[..2 * n] == s[..2 * n - 2] + [s[2 * n - 2], s[2 * n - 1]];
    }
  }

  lemma {:induction false} HexDigitsOnly(bytes: Bytes)
    ensures forall c | c in Hex(bytes) :: Nibble(c).Some?
  {
    if bytes != [] {
      HexDigitsOnly(bytes[..|bytes| - 1]);
    }
  }

  // --- separators ----------------------------------------------------------------------

  /** The first index of `c` at or after `from`, or the length. */
  function IndexFrom(s: string, c: char, from: nat): (i: nat)
    requires from <= |s|
    ensures from <= i <= |s| && (i < |s| ==> s[i] == c)
    ensures forall k | from <= k < i :: s[k] != c
    decreases |s| - from
  {
    if from == |s| || s[from] == c then from else IndexFrom(s, c, from + 1)
  }

  /** One past the last index of `c`, or 0. */
  function AfterLast(s: string, c: char): (i: nat)
    ensures i <= |s| && (i > 0 ==> s[i - 1] == c)
    ensures forall k | i <= k < |s| :: s[k] != c
  {
    if s == [] then 0
    else if s[|s| - 1] == c then |s|
    else AfterLast(s[..|s| - 1], c)
  }

  /** `s.split(c).nth(n)`, empty if there is none. */
  function Component(s: string, c: char, n: nat): string
    decreases n
  {
    var i := IndexFrom(s, c, 0);
    if n == 0 then s[..i]
    else if i == |s| then []
    else Component(s[i + 1..], c, n - 1)
  }

  lemma FirstComponent(a: string, c: char, b: string)
    requires c !in a
    ensures IndexFrom(a + [c] + b, c, 0) == |a|
    ensures Component(a + [c] + b, c, 0) == a
    ensures forall n: nat :: n > 0 ==> Component(a + [c] + b, c, n) == Component(b, c, n - 1)
  {
    var s := a + [c] + b;
    var i := IndexFrom(s, c, 0);
    assert s[|a|] == c;
    assert forall k | 0 <= k < |a| :: s[k] == a[k] && s[k] in a;
    assert s[..i] == a && s[i + 1..] == b;
  }
}
