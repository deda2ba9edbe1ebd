/** The Internet checksum of RFC 1071 as the kernel computes it. */
module InternetChecksum {
  type Byte = b: nat | b < 256

  const ONES: nat := 65535
  const WRAP: nat := 0x1_0000_0000

  /** The sum of the big-endian words; a last odd byte is the high half of a word. */
  function WordSum(s: seq<Byte>): nat {
    if s == [] then 0
    else if |s| == 1 then 256 * s[0]
    else 256 * s[0] + s[1] + WordSum(s[2..])
  }

  /** Adding the carries back in until the sum fits sixteen bits. */
  function Fold(n: nat): nat {
    if n < 65536 then n else Fold(n % 65536 + n / 65536)
  }

  /** `calculate_checksum`, with its 32-bit wrapping sum. */
  function Checksum(s: seq<Byte>): (r: nat)
    ensures r <= ONES
  {
    ONES - FoldBound(WordSum(s) % WRAP)
  }

  function FoldBound(n: nat): (r: nat)
    ensures r <= ONES && r == Fold(n)
  {
    FoldResidue(n);
    Fold(n)
  }

  lemma OneFold(n: nat)
    ensures (n % 65536 + n / 65536) % ONES == n % ONES
  {
    var q, r := n / 65536, n % 65536;
    assert n == (r + q) + ONES * q;
    AddMultiple(r + q, q);
  }

  lemma {:induction false} AddMultiple(a: nat, k: nat)
    ensures (a + ONES * k) % ONES == a % ONES
  {
  }

  /** Folding gives the residue modulo 65535 in the range 1 to 65535, except that zero stays zero. */
  lemma {:induction false} FoldResidue(n: nat)
    ensures Fold(n) <= ONES && Fold(n) % ONES == n % ONES && (Fold(n) == 0 <==> n == 0)
  {
    if n >= 65536 {
      OneFold(n);
      FoldResidue(n % 65536 + n / 65536);
    }
  }

  lemma FoldIs(n: nat)
    ensures Fold(n) == if n == 0 then 0 else if n % ONES == 0 then ONES else n % ONES
  {
  }

  lemma {:induction false} SumBound(s: seq<Byte>)
    ensures WordSum(s) <= ONES * ((|s| + 1) / 2)
  {
    if |s| > 1 { SumBound(s[2..]); }
  }

  /** The 32-bit sum cannot wrap on anything that fits a packet. */
  lemma NoWrap(s: seq<Byte>)
    requires |s| <= 131072
    ensures WordSum(s) < WRAP
  {
    SumBound(s);
  }

  /** A block checks to zero exactly when its words sum to a positive multiple of 65535. */
  lemma ChecksToZero(s: seq<Byte>)
    requires |s| <= 131072
    ensures Checksum(s) == 0 <==> WordSum(s) > 0 && WordSum(s) % ONES == 0
  {
    hide WordSum, Fold, Checksum;
    ChecksumIs(s);
    FoldIs(WordSum(s));
  }

  lemma {:induction false} SumJoin(a: seq<Byte>, b: seq<Byte>)
    requires |a| % 2 == 0
    ensures WordSum(a + b) == WordSum(a) + WordSum(b)
  {
    if a == [] {
      assert a + b == b;
    } else {
      assert (a + b)[2..] == a[2..] + b;
      SumJoin(a[2..], b);
    }
  }

  /** An odd number of bytes sums as if a zero byte followed, as section 4.1 of RFC 1071 has it. */
  lemma {:induction false} OddAsPadded(s: seq<Byte>)
    requires |s| % 2 == 1
    ensures WordSum(s + [0]) == WordSum(s) && Checksum(s + [0]) == Checksum(s)
  {
    if |s| > 1 {
      OddAsPadded(s[2..]);
      assert (s + [0])[2..] == s[2..] + [0];
    } else {
      assert (s + [0])[2..] == [];
    }
  }

  function Be16(x: nat): (r: seq<Byte>)
    requires x < 65536
    ensures |r| == 2
  {
    [x / 256, x % 256]
  }

  function Word16(s: seq<Byte>, o: nat): (x: nat)
    requires o + 2 <= |s|
    ensures x < 65536
  {
    256 * (s[o] as nat) + s[o + 1] as nat
  }

  lemma Word16Of(s: seq<Byte>, o: nat, x: nat)
    requires o + 2 <= |s| && x < 65536 && s[o..o + 2] == Be16(x)
    ensures Word16(s, o) == x
  {
  }

  lemma SumWord(x: nat)
    requires x < 65536
    ensures WordSum(Be16(x)) == x
  {
  }

  /** A block in which a zero word is replaced by the checksum of the whole, or by all ones if that is zero, checks to
      zero exactly when the sum does not wrap at 32 bits in between. */
  lemma CompletesIff(before: seq<Byte>, after: seq<Byte>, c: nat)
    requires |before| % 2 == 0 && c < 65536
    requires c == Checksum(before + Be16(0) + after) || (Checksum(before + Be16(0) + after) == 0 && c == ONES)
    ensures Checksum(before + Be16(c) + after) == 0 <==> WordSum(before + Be16(0) + after) % WRAP + c < WRAP
  {
    hide Fold, Be16, WordSum;
    var s, t := before + Be16(0) + after, before + Be16(c) + after;
    SumParts(before, after, 0);
    SumParts(before, after, c);
    FoldResidue(WordSum(s) % WRAP);
    CompletesSum(WordSum(s) % WRAP, c);
    WrapAdd(WordSum(s), c);
  }

  lemma WrapAdd(n: nat, c: nat)
    ensures (n + c) % WRAP == (n % WRAP + c) % WRAP
  {
  }

  lemma CompletesSum(a: nat, c: nat)
    requires a < WRAP && Fold(a) <= ONES && c <= ONES && (c == ONES - Fold(a) || (Fold(a) == ONES && c == ONES))
    ensures Fold((a + c) % WRAP) == ONES <==> a + c < WRAP
  {
    hide Fold;
    FoldIs(a);
    FoldIs((a + c) % WRAP);
    if a + c >= WRAP { assert (a + c) % WRAP == a + c - WRAP && WRAP % ONES == 1; }
  }

  /** On anything that fits a packet the sum does not wrap. */
  lemma Completes(before: seq<Byte>, after: seq<Byte>, c: nat)
    requires |before| % 2 == 0 && |before| + 2 + |after| <= 131072 && c < 65536
    requires c == Checksum(before + Be16(0) + after) || (Checksum(before + Be16(0) + after) == 0 && c == ONES)
    ensures Checksum(before + Be16(c) + after) == 0
  {
    hide Fold, WordSum, Checksum, Be16;
    CompletesIff(before, after, c);
    SumBound(before + Be16(0) + after);
  }

  lemma ChecksumIs(s: seq<Byte>)
    requires |s| <= 131072
    ensures Fold(WordSum(s)) <= ONES && Checksum(s) == ONES - Fold(WordSum(s))
  {
    hide WordSum, Fold;
    NoWrap(s);
    FoldResidue(WordSum(s));
    Small(WordSum(s));
  }

  lemma Small(n: nat)
    requires n < WRAP
    ensures n % WRAP == n
  {
  }

  lemma SumParts(before: seq<Byte>, after: seq<Byte>, c: nat)
    requires |before| % 2 == 0 && c < 65536
    ensures WordSum(before + Be16(c) + after) == WordSum(before) + c + WordSum(after)
  {
    hide WordSum, Be16;
    assert before + Be16(c) + after == before + (Be16(c) + after);
    SumJoin(before, Be16(c) + after);
    SumJoin(Be16(c), after);
    SumWord(c);
  }

  /** The two loops of `calculate_checksum`. */
  method CalculateChecksum(data: seq<Byte>) returns (r: nat)
    ensures r == Checksum(data) && r <= ONES
  {
    var sum, i := 0, 0;
    assert data[0..] == data;
    while i + 1 < |data|
      invariant 0 <= i <= |data| && 0 <= sum < WRAP
      invariant (sum + WordSum(data[i..])) % WRAP == WordSum(data) % WRAP
    {
      var word := 256 * (data[i] as nat) + data[i + 1] as nat;
      assert data[i..][2..] == data[i + 2..];
      WrapStep(sum, word, WordSum(data[i + 2..]));
      sum := (sum + word) % WRAP;
      i := i + 2;
    }
    if i < |data| {
      var word := 256 * (data[i] as nat);
      WrapStep(sum, word, 0);
      sum := (sum + word) % WRAP;
    }
    assert sum == WordSum(data) % WRAP;
    ghost var total := sum;
    while sum / 65536 != 0
      invariant 0 <= sum && Fold(sum) == Fold(total)
      decreases sum
    {
      sum := sum % 65536 + sum / 65536;
    }
    FoldResidue(total);
    r := ONES - sum;
  }

  lemma WrapStep(sum: nat, word: nat, rest: nat)
    ensures ((sum + word) % WRAP + rest) % WRAP == (sum + (word + rest)) % WRAP
  {
  }
}
