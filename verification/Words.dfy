/** Bytes, 32-bit words and their network byte order. */
module Words {

  type byte = b: int | 0 <= b < 0x100

  type u32 = w: int | 0 <= w < 0x1_0000_0000

  const BYTES_PER_XDR_UNIT: nat := 4

  const U32_SIZE: nat := 0x1_0000_0000

  /** The last `k` base-256 digits of `n`, most significant first. */
  function Digits(n: nat, k: nat): (s: seq<byte>)
    ensures |s| == k
  {
    if k == 0 then [] else Digits(n / 0x100, k - 1) + [n % 0x100]
  }

  function Pow256(k: nat): (p: nat)
    ensures p > 0
  {
    if k == 0 then 1 else 0x100 * Pow256(k - 1)
  }

  function FromDigits(s: seq<byte>): (n: nat)
    ensures n < Pow256(|s|)
  {
    if s == [] then 0 else FromDigits(s[..|s| - 1]) * 0x100 + s[|s| - 1]
  }

  lemma {:induction false} FromDigitsOfDigits(n: nat, k: nat)
    requires n < Pow256(k)
    ensures FromDigits(Digits(n, k)) == n
  {
    if k > 0 {
      FromDigitsOfDigits(n / 0x100, k - 1);
      assert Digits(n, k)[..k - 1] == Digits(n / 0x100, k - 1);
    }
  }

  lemma {:induction false} DigitsOfFromDigits(s: seq<byte>)
    ensures Digits(FromDigits(s), |s|) == s
  {
    if s != [] {
      var front, last := s[..|s| - 1], s[|s| - 1];
      DigitsOfFromDigits(front);
      assert FromDigits(s) / 0x100 == FromDigits(front);
      assert FromDigits(s) % 0x100 == last;
      assert s == front + [last];
    }
  }

  lemma Pow256Of4()
    ensures Pow256(4) == U32_SIZE
  {
    assert Pow256(2) == 0x10000;
    assert Pow256(3) == 0x1000000;
  }

  /** The four bytes a 32-bit value occupies in a message. */
  function Word(w: u32): (s: seq<byte>)
    ensures |s| == 4
  {
    Digits(w, BYTES_PER_XDR_UNIT)
  }

  /** The 32-bit value read back from four message bytes. */
  function Unword(s: seq<byte>): u32
    requires |s| == 4
  {
    Pow256Of4();
    FromDigits(s)
  }

  lemma UnwordOfWord(w: u32)
    ensures Unword(Word(w)) == w
  {
    Pow256Of4();
    FromDigitsOfDigits(w, 4);
  }

  lemma WordOfUnword(s: seq<byte>)
    requires |s| == 4
    ensures Word(Unword(s)) == s
  {
    DigitsOfFromDigits(s);
  }

  lemma DigitStep(n: nat, k: nat)
    requires k > 0
    ensures Digits(n, k) == Digits(n / 0x100, k - 1) + [n % 0x100]
  {
  }

  /** Network order: the most significant byte first. */
  lemma WordBytes(w: u32)
    ensures Word(w) == [w / 0x100_0000, w / 0x1_0000 % 0x100, w / 0x100 % 0x100, w % 0x100]
  {
    var a, b, c := w / 0x100, w / 0x1_0000, w / 0x100_0000;
    assert a / 0x100 == b && b / 0x100 == c && c < 0x100;
    DigitStep(w, 4);
    DigitStep(a, 3);
    DigitStep(b, 2);
    DigitStep(c, 1);
    assert Digits(c, 1) == [c % 0x100];
  }

  lemma UnwordBytes(s: seq<byte>)
    requires |s| == 4
    ensures var a: int, b: int, c: int, d: int := s[0], s[1], s[2], s[3];
            Unword(s) == a * 0x100_0000 + b * 0x1_0000 + c * 0x100 + d
  {
    var a: int, b: int, c: int, d: int := s[0], s[1], s[2], s[3];
    var w := a * 0x100_0000 + b * 0x1_0000 + c * 0x100 + d;
    assert w / 0x100_0000 == a && w / 0x1_0000 == a * 0x100 + b && w / 0x100 == a * 0x1_0000 + b * 0x100 + c;
    WordBytes(w);
    assert Word(w) == s;
    UnwordOfWord(w);
  }

  /** Two's complement: the 32-bit pattern of a signed value, and back. */
  function ToU32(v: int): u32 {
    v % U32_SIZE
  }

  lemma TwosComplement(v: int)
    requires -0x8000_0000 <= v < 0x8000_0000
    ensures ToU32(v) == if v < 0 then v + 0x1_0000_0000 else v
  {
  }

  /** The signed reading of a 32-bit pattern. */
  function Signed32(w: u32): (v: int)
    ensures -0x8000_0000 <= v < 0x8000_0000 && ToU32(v) == w
  {
    if w < 0x8000_0000 then w else w - U32_SIZE
  }

  /** The cast of a 32-bit integer to a 16-bit signed one. */
  function Signed16(v: int): (r: int)
    ensures -0x8000 <= r < 0x8000
    ensures -0x8000 <= v < 0x8000 ==> r == v
  {
    var low := v % 0x10000;
    if low < 0x8000 then low else low - 0x10000
  }

  /** Only the low 16 bits count. */
  lemma Signed16IsLowHalf(v: int)
    ensures (v - Signed16(v)) % 0x10000 == 0
  {
  }

  /** The first multiple of four that is not below `n`: the padding rule of both byte movers. */
  function RoundUp(n: nat): (r: nat)
    ensures r % 4 == 0 && n <= r < n + 4
    ensures n % 4 == 0 ==> r == n
  {
    n + (4 - n % 4) % 4
  }
}
