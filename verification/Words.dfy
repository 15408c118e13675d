/** Bytes and little-endian words, as the files and images of the other components hold them. */
module Words {
  type Byte = c: char | c as int < 256

  type Blob = s: string | forall i :: 0 <= i < |s| ==> s[i] as int < 256

  function Word(n: nat): (b: Blob)
    requires n < 0x1_0000_0000
    ensures |b| == 4
  {
    [(n % 256) as char, (n / 256 % 256) as char, (n / 65536 % 256) as char, (n / 16777216) as char]
  }

  function ReadWord(b: Blob, at: nat): (n: nat)
    requires at + 4 <= |b|
    ensures n < 0x1_0000_0000
  {
    b[at] as int + b[at + 1] as int * 256 + b[at + 2] as int * 65536 + b[at + 3] as int * 16777216
  }

  lemma Digits(n: nat)
    requires n < 0x1_0000_0000
    ensures n == n % 256 + n / 256 % 256 * 256 + n / 65536 % 256 * 65536 + n / 16777216 * 16777216
  {
    assert n / 65536 == n / 256 / 256 && n / 16777216 == n / 65536 / 256;
  }

  function Power(k: nat): (p: nat)
    ensures p > 0
  {
    if k == 0 then 1 else 256 * Power(k - 1)
  }

  /** Byte `k` of a word is its digit `k` to the base 256, the least one first. */
  lemma LittleEndian(n: nat, k: nat)
    requires n < 0x1_0000_0000 && k < 4
    ensures Word(n)[k] as int == n / Power(k) % 256
  {
    assert Power(1) == 256 && Power(2) == 65536 && Power(3) == 16777216;
  }

  /** Little-endian words: reading and writing undo each other. */
  lemma WordRoundTrip(n: nat, b: Blob, at: nat)
    requires n < 0x1_0000_0000 && at + 4 <= |b|
    ensures b[at..at + 4] == Word(n) ==> ReadWord(b, at) == n
    ensures Word(ReadWord(b, at)) == b[at..at + 4]
  {
    Digits(n);
    if b[at..at + 4] == Word(n) {
      assert b[at] == Word(n)[0] && b[at + 1] == Word(n)[1] && b[at + 2] == Word(n)[2] && b[at + 3] == Word(n)[3];
    }
    WordDigits(b[at] as int, b[at + 1] as int, b[at + 2] as int, b[at + 3] as int);
  }

  lemma WordDigits(a: nat, b: nat, c: nat, d: nat)
    requires a < 256 && b < 256 && c < 256 && d < 256
    ensures var n := a + b * 256 + c * 65536 + d * 16777216;
            n < 0x1_0000_0000 && n % 256 == a && n / 256 % 256 == b && n / 65536 % 256 == c && n / 16777216 == d
  {
    var n := a + b * 256 + c * 65536 + d * 16777216;
    assert n / 256 == b + c * 256 + d * 65536;
    assert n / 65536 == c + d * 256;
    assert n / 16777216 == d;
  }
}
