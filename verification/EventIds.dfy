/** Event ids of the generator: a counter permuted modulo 2^64 and printed in fixed-width hex. */
module EventIds {
  import opened Numerals
  import opened Wrappers

  const MULTIPLIER := 0x9E3779B97F4A7C15
  const MODULUS := 0x1_0000_0000_0000_0000
  const PREFIX_LIMIT := 0x1_0000_0000

  /** The multiplier is odd, so it has an inverse modulo 2^64. */
  const INVERSE := 0xF1DE83E19937733D

  /** Masking with 2^64 - 1 is the remainder modulo 2^64. */
  function Permuted(sequence: nat): (v: nat)
    ensures v < MODULUS
  {
    (sequence * MULTIPLIER) % MODULUS
  }

  // ---------------------------------------------------------------- modular arithmetic

  lemma ModUnique(n: int, q: int, r: int, d: int)
    requires d > 0 && n == q * d + r && 0 <= r < d
    ensures n % d == r
  {
    var k := n / d - q;
    assert k * d == r - n % d;
    MultipleBounds(k, d);
  }

  lemma {:induction false} MultipleBounds(k: int, d: int)
    requires d > 0
    ensures k > 0 ==> k * d >= d
    ensures k < 0 ==> k * d <= -d
    decreases if k < 0 then -k else k
  {
    if -1 <= k <= 1 {
    } else if k > 1 {
      MultipleBounds(k - 1, d);
      assert k * d == (k - 1) * d + d;
    } else {
      MultipleBounds(k + 1, d);
      assert k * d == (k + 1) * d - d;
    }
  }

  lemma ModOfProduct(a: int, b: int, c: int, d: int)
    requires d > 0 && a % d == b % d
    ensures (a * c) % d == (b * c) % d
  {
    var k := a / d - b / d;
    assert a == b + k * d;
    assert a * c == b * c + (k * c) * d;
    var q, r := (b * c) / d, (b * c) % d;
    assert b * c == q * d + r;
    assert a * c == (q + k * c) * d + r by {
      assert (q + k * c) * d == q * d + (k * c) * d;
    }
    ModUnique(a * c, q + k * c, r, d);
  }

  /** Multiplying by the multiplier and then by its inverse is the identity modulo 2^64. */
  lemma InverseUndoes(n: int)
    ensures (n * MULTIPLIER * INVERSE) % MODULUS == n % MODULUS
    ensures (n * INVERSE * MULTIPLIER) % MODULUS == n % MODULUS
  {
    var one := MULTIPLIER * INVERSE;
    assert one % MODULUS == 1;
    ModOfProduct(one, 1, n, MODULUS);
    assert one * n == n * MULTIPLIER * INVERSE == n * INVERSE * MULTIPLIER;
  }

  lemma ModMod(n: int, c: int)
    ensures ((n % MODULUS) * c) % MODULUS == (n * c) % MODULUS
  {
    ModUnique(n % MODULUS, 0, n % MODULUS, MODULUS);
    ModOfProduct(n % MODULUS, n, c, MODULUS);
  }

  /** Two sequence numbers give one counter exactly when they are 2^64 apart, or a multiple of it. */
  lemma PermutedIsInjective(m: nat, n: nat)
    ensures Permuted(m) == Permuted(n) <==> m % MODULUS == n % MODULUS
  {
    if m % MODULUS == n % MODULUS {
      ModOfProduct(m, n, MULTIPLIER, MODULUS);
    }
    if Permuted(m) == Permuted(n) {
      ModMod(m * MULTIPLIER, INVERSE);
      ModMod(n * MULTIPLIER, INVERSE);
      InverseUndoes(m);
      InverseUndoes(n);
    }
  }

  /** Any 2^64 consecutive sequence numbers reach every counter value. */
  lemma PermutedIsSurjective(lo: nat, v: nat) returns (n: nat)
    requires v < MODULUS
    ensures lo <= n < lo + MODULUS && Permuted(n) == v
  {
    var offset := (v * INVERSE - lo) % MODULUS;
    n := lo + offset;
    var k := (v * INVERSE - lo) / MODULUS;
    assert n == v * INVERSE - k * MODULUS;
    var q, r := (v * INVERSE) / MODULUS, (v * INVERSE) % MODULUS;
    ModUnique(n, q - k, r, MODULUS);
    ModOfProduct(n, v * INVERSE, MULTIPLIER, MODULUS);
    InverseUndoes(v);
    ModUnique(v, 0, v, MODULUS);
  }

  // ---------------------------------------------------------------- hexadecimal

  /** The format `0{width}x`: at least `width` digits, zero-padded on the left. */
  function Format(n: nat, width: nat): string {
    var digits := Digits(n, Hexadecimal);
    Zeros(Max(0, width - |digits|)) + digits
  }

  /** Printing loses nothing, and a number that fits prints with exactly the width asked for. */
  lemma FormatIsFixedWidth(n: nat, width: nat)
    requires width > 0 && n < Power(Hexadecimal, width)
    ensures |Format(n, width)| == width && Value(Format(n, width), Hexadecimal) == n
  {
    DigitsFit(n, Hexadecimal, width);
    ValueOfDigits(width - |Digits(n, Hexadecimal)|, n, Hexadecimal);
  }

  // ---------------------------------------------------------------- event ids

  function EventId(prefix: nat, sequence: nat): string {
    "evt_" + Format(prefix, 8) + Format(Permuted(sequence), 16)
  }

  /** An id reads back: the prefix in eight digits, then the multiplied counter in sixteen. */
  lemma EventIdFields(prefix: nat, sequence: nat)
    requires prefix < PREFIX_LIMIT
    ensures var id := EventId(prefix, sequence);
            && |id| == 28 && id[..4] == "evt_"
            && Value(id[4..12], Hexadecimal) == prefix
            && Value(id[12..], Hexadecimal) == (sequence * 0x9E3779B97F4A7C15) % 0x1_0000_0000_0000_0000
  {
    assert Power(Hexadecimal, 8) == PREFIX_LIMIT && Power(Hexadecimal, 16) == MODULUS;
    FormatIsFixedWidth(prefix, 8);
    FormatIsFixedWidth(Permuted(sequence), 16);
    var id := EventId(prefix, sequence);
    assert id[..4] == "evt_" && id[4..12] == Format(prefix, 8) && id[12..] == Format(Permuted(sequence), 16);
  }

  /** Padding stands on the left, the highest digit first, and digits above nine are small letters. */
  lemma FormatExample()
    ensures Format(0x2f, 8) == "0000002f"
  {
    assert Digits(2, Hexadecimal) == "2";
    assert Digits(0x2f, Hexadecimal) == "2" + "f" == "2f";
    assert Zeros(6) == "000000";
  }

  /** Ids collide only within one generator, and only 2^64 events apart. */
  lemma EventIdsCollideIff(p: nat, m: nat, q: nat, n: nat)
    requires p < PREFIX_LIMIT && q < PREFIX_LIMIT
    ensures EventId(p, m) == EventId(q, n) <==> p == q && m % MODULUS == n % MODULUS
  {
    assert Power(Hexadecimal, 8) == PREFIX_LIMIT && Power(Hexadecimal, 16) == MODULUS;
    FormatIsFixedWidth(p, 8);
    FormatIsFixedWidth(q, 8);
    FormatIsFixedWidth(Permuted(m), 16);
    FormatIsFixedWidth(Permuted(n), 16);
    PermutedIsInjective(m, n);
    var a, b := EventId(p, m), EventId(q, n);
    assert a[4..12] == Format(p, 8) && a[12..] == Format(Permuted(m), 16);
    assert b[4..12] == Format(q, 8) && b[12..] == Format(Permuted(n), 16);
  }

  /** Sequence numbers less than 2^64 apart never share an id. */
  lemma NearbyIdsDiffer(prefix: nat, m: nat, n: nat)
    requires prefix < PREFIX_LIMIT && m < n < m + MODULUS
    ensures EventId(prefix, m) != EventId(prefix, n)
  {
    EventIdsCollideIff(prefix, m, prefix, n);
    var k := n / MODULUS - m / MODULUS;
    assert n - m == k * MODULUS + (n % MODULUS - m % MODULUS);
    MultipleBounds(k, MODULUS);
  }

  class EventGenerator {
    const prefix: nat
    var eventSequence: nat

    constructor (prefix: nat)
      requires prefix < PREFIX_LIMIT
      ensures this.prefix == prefix && eventSequence == 0
    {
      this.prefix := prefix;
      eventSequence := 0;
    }

    method ChooseEventId() returns (id: string)
      modifies this
      ensures eventSequence == old(eventSequence) + 1
      ensures id == EventId(prefix, eventSequence)
    {
      eventSequence := eventSequence + 1;
      var permuted := (eventSequence * MULTIPLIER) % MODULUS;
      id := "evt_" + Format(prefix, 8) + Format(permuted, 16);
    }

    /** The ids of up to 2^64 events in a row are pairwise distinct. */
    method ChooseEventIds(count: nat) returns (ids: seq<string>)
      requires prefix < PREFIX_LIMIT && count <= MODULUS
      modifies this
      ensures |ids| == count && eventSequence == old(eventSequence) + count
      ensures forall i, j :: 0 <= i < j < count ==> ids[i] != ids[j]
    {
      ids := [];
      ghost var start := eventSequence;
      for k := 0 to count
        invariant |ids| == k && eventSequence == start + k
        invariant forall i :: 0 <= i < k ==> ids[i] == EventId(prefix, start + i + 1)
      {
        var id := ChooseEventId();
        ids := ids + [id];
      }
      forall i, j | 0 <= i < j < count ensures ids[i] != ids[j] {
        NearbyIdsDiffer(prefix, start + i + 1, start + j + 1);
      }
    }
  }
}
