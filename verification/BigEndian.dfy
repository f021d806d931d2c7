/** Big-endian byte buffers and the two in-place increments of the free-address scanner.

    `Inc` adds one and `IncSubnet` adds one subnet; both carry byte by byte and wrap around.
    The functions `Incremented` and `SubnetIncremented` say what they leave in the buffer, and
    the lemmas say what that means for the number the buffer stands for.
 */
module BigEndian {

  type Byte = b: int | 0 <= b < 256

  function Pow2(n: nat): (p: nat)
    ensures p >= 1
  {
    if n == 0 then 1 else 2 * Pow2(n - 1)
  }

  lemma {:induction false} Pow2Add(a: nat, b: nat)
    ensures Pow2(a + b) == Pow2(a) * Pow2(b)
  {
    if a == 0 {
    } else {
      Pow2Add(a - 1, b);
      assert Pow2(a + b) == 2 * Pow2(a - 1 + b);
    }
  }

  lemma Pow2Eight(n: nat)
    ensures Pow2(n + 8) == Pow2(n) * 256
  {
    Pow2Add(n, 8);
    assert Pow2(8) == 256 by {
      assert Pow2(4) == 16;
      Pow2Add(4, 4);
    }
  }

  lemma Pow2Monotone(a: nat, b: nat)
    requires a <= b
    ensures Pow2(a) <= Pow2(b)
  {
    if a < b { Pow2Monotone(a, b - 1); }
  }

  /** The number a buffer stands for, most significant byte first. */
  function Value(s: seq<Byte>): (v: nat)
  {
    if s == [] then 0 else Value(s[..|s| - 1]) * 256 + s[|s| - 1]
  }

  lemma {:induction false} ValueBound(s: seq<Byte>)
    ensures Value(s) < Pow2(8 * |s|)
  {
    if s == [] {
    } else {
      ValueBound(s[..|s| - 1]);
      Pow2Eight(8 * (|s| - 1));
    }
  }

  lemma {:induction false} ValueConcat(a: seq<Byte>, b: seq<Byte>)
    ensures Value(a + b) == Value(a) * Pow2(8 * |b|) + Value(b)
  {
    if b == [] {
      assert a + b == a;
    } else {
      var b', x := b[..|b| - 1], b[|b| - 1];
      assert (a + b)[..|a + b| - 1] == a + b';
      ValueConcat(a, b');
      Pow2Eight(8 * |b'|);
      hide Pow2;
      Shift(Value(a), Pow2(8 * |b'|), Value(b'), x);
    }
  }

  lemma Shift(a: int, p: int, v: int, x: int)
    ensures (a * p + v) * 256 + x == a * (p * 256) + (v * 256 + x)
  {
  }

  lemma {:induction false} ValueInjective(a: seq<Byte>, b: seq<Byte>)
    requires |a| == |b| && Value(a) == Value(b)
    ensures a == b
  {
    if a == [] {
    } else {
      var a', b' := a[..|a| - 1], b[..|b| - 1];
      assert a[|a| - 1] == Value(a) % 256;
      assert b[|b| - 1] == Value(b) % 256;
      ValueInjective(a', b');
      assert a == a' + [a[|a| - 1]];
      assert b == b' + [b[|b| - 1]];
    }
  }

  /** The n-byte buffer for a number. */
  function Bytes(v: nat, n: nat): (s: seq<Byte>)
    ensures |s| == n
  {
    if n == 0 then [] else Bytes(v / 256, n - 1) + [v % 256]
  }

  lemma {:induction false} ValueOfBytes(v: nat, n: nat)
    requires v < Pow2(8 * n)
    ensures Value(Bytes(v, n)) == v
  {
    if n == 0 {
    } else {
      Pow2Eight(8 * (n - 1));
      assert v / 256 < Pow2(8 * (n - 1));
      ValueOfBytes(v / 256, n - 1);
      assert Bytes(v, n)[..n - 1] == Bytes(v / 256, n - 1);
    }
  }

  lemma BytesOfValue(s: seq<Byte>)
    ensures Bytes(Value(s), |s|) == s
  {
    ValueBound(s);
    ValueOfBytes(Value(s), |s|);
    ValueInjective(Bytes(Value(s), |s|), s);
  }

  // ----- inc -----

  /** Adds one at the last byte and carries towards the first. */
  function Incremented(s: seq<Byte>): (r: seq<Byte>)
    ensures |r| == |s|
  {
    if s == [] then []
    else if s[|s| - 1] == 255 then Incremented(s[..|s| - 1]) + [0]
    else s[..|s| - 1] + [s[|s| - 1] + 1]
  }

  lemma {:induction false} IncrementedValue(s: seq<Byte>)
    ensures Value(Incremented(s)) == (Value(s) + 1) % Pow2(8 * |s|)
  {
    if s == [] {
    } else {
      var s', x := s[..|s| - 1], s[|s| - 1];
      Pow2Eight(8 * |s'|);
      ValueBound(s');
      if x == 255 {
        IncrementedValue(s');
        assert Incremented(s)[..|s| - 1] == Incremented(s');
      } else {
        assert Incremented(s)[..|s| - 1] == s';
      }
      IncrementedByte(Value(s'), x, Pow2(8 * |s'|));
    }
  }

  /** Adding one to a number whose last byte is x, modulo a multiple of 256. */
  lemma IncrementedByte(v: nat, x: Byte, p: nat)
    requires v < p
    ensures (v * 256 + x + 1) % (p * 256) == if x == 255 then (v + 1) % p * 256 else v * 256 + x + 1
  {
    if x == 255 && v + 1 == p {
      ModSelf(p * 256);
      ModSelf(p);
    } else {
      ModSmall(v * 256 + x + 1, p * 256);
      if x == 255 { ModSmall(v + 1, p); }
    }
  }

  lemma ModSmall(x: nat, m: nat)
    requires x < m
    ensures x % m == x
  {
  }

  lemma ModSelf(m: nat)
    requires m > 0
    ensures m % m == 0
  {
  }

  lemma IncrementedStep(s: seq<Byte>, j: nat)
    requires j < |s|
    ensures s[j] == 255 ==> Incremented(s[..j + 1]) == Incremented(s[..j]) + [0]
    ensures s[j] < 255 ==> Incremented(s[..j + 1]) == s[..j] + [s[j] + 1]
  {
    assert s[..j + 1][..j] == s[..j];
  }

  /** Increments the first `count` bytes of the buffer, dropping the carry out of the first byte. */
  method Carry(ip: array<Byte>, count: nat)
    requires count <= ip.Length
    modifies ip
    ensures ip[..] == Incremented(old(ip[..count])) + old(ip[count..])
  {
    hide Incremented;
    var j := count - 1;
    ghost var was := ip[..];
    assert was[..j + 1] == was[..count];
    while j >= 0
      invariant -1 <= j < count
      invariant ip[..j + 1] == was[..j + 1]
      invariant ip[count..] == was[count..]
      invariant Incremented(was[..count]) == Incremented(was[..j + 1]) + ip[j + 1..count]
    {
      ghost var before := ip[..];
      IncrementedStep(was, j);
      assert ip[j] == was[j] by { assert ip[..j + 1][j] == was[..j + 1][j]; }
      ip[j] := (ip[j] as int + 1) % 256;
      assert ip[..j] == was[..j] by { assert before[..j] == was[..j + 1][..j]; }
      assert ip[j..count] == [ip[j]] + before[j + 1..count];
      assert ip[count..] == before[count..];
      if ip[j] > 0 {
        assert ip[..] == ip[..j] + ip[j..count] + ip[count..];
        return;
      }
      j := j - 1;
    }
    NothingIncremented(was);
    assert ip[..] == ip[..count] + ip[count..];
  }

  lemma NothingIncremented(s: seq<Byte>)
    ensures Incremented(s[..0]) == []
  {
  }

  method Inc(ip: array<Byte>)
    modifies ip
    ensures ip[..] == Incremented(old(ip[..]))
  {
    Carry(ip, ip.Length);
    assert old(ip[..ip.Length]) == old(ip[..]);
  }

  // ----- incSubnet -----

  /** The byte that holds the last bit of the prefix, and the weight of that bit inside it. */
  function SubnetByte(mask: nat): nat
    requires mask > 0
  {
    (mask - 1) / 8
  }

  function SubnetBit(mask: nat): (b: Byte)
    requires mask > 0
    ensures 1 <= b <= 128
  {
    Pow2Monotone(7 - (mask - 1) % 8, 7);
    assert Pow2(7) == 128 by { assert Pow2(3) == 8; }
    Pow2(7 - (mask - 1) % 8)
  }

  function SubnetIncremented(s: seq<Byte>, mask: nat): (r: seq<Byte>)
    requires mask <= 8 * |s|
    ensures |r| == |s|
  {
    if mask == 0 then s else
      var start := SubnetByte(mask);
      var b := (s[start] as int + SubnetBit(mask)) % 256;
      (if b < s[start] then Incremented(s[..start]) else s[..start]) + [b] + s[start + 1..]
  }

  /** The weight of the subnet bit in the whole buffer is 2^(8n - mask). */
  lemma SubnetBitWeight(n: nat, mask: nat)
    requires 0 < mask <= 8 * n
    ensures SubnetByte(mask) < n
    ensures SubnetBit(mask) * Pow2(8 * (n - 1 - SubnetByte(mask))) == Pow2(8 * n - mask)
  {
    Pow2Add(7 - (mask - 1) % 8, 8 * (n - 1 - SubnetByte(mask)));
  }

  /** One subnet up, modulo the size of the address space. */
  lemma SubnetIncrementedValue(s: seq<Byte>, mask: nat)
    requires 0 < mask <= 8 * |s|
    ensures Value(SubnetIncremented(s, mask)) == (Value(s) + Pow2(8 * |s| - mask)) % Pow2(8 * |s|)
  {
    hide Value, Pow2, Incremented;
    SubnetBitWeight(|s|, mask);
    var start, add := SubnetByte(mask), SubnetBit(mask);
    var hi, x, lo := s[..start], s[start], s[start + 1..];
    var b: Byte := (x as int + add) % 256;
    assert s == hi + [x] + lo;
    AddInTheMiddle(hi, x, lo, add, b);
  }

  /** Adding `add` to the middle byte, carrying into the bytes before it, adds `add` at its weight. */
  lemma AddInTheMiddle(hi: seq<Byte>, x: Byte, lo: seq<Byte>, add: nat, b: Byte)
    requires 0 < add < 256 && b == (x as int + add) % 256
    ensures var r := (if b < x then Incremented(hi) else hi) + [b] + lo;
            Value(r) == (Value(hi + [x] + lo) + add * Pow2(8 * |lo|)) % Pow2(8 * |hi + [x] + lo|)
  {
    hide Value, Pow2, Incremented;
    var hi' := if b < x then Incremented(hi) else hi;
    var over := AddAtTheEnd(hi, x, add, b);
    var y, y', m, w := Value(hi + [x]), Value(hi' + [b]), Pow2(8 * |hi|) * 256, Pow2(8 * |lo|);
    ValueConcat(hi + [x], lo);
    ValueConcat(hi' + [b], lo);
    Weigh(y, y', add, over, m, w);
    SpaceSplit(|hi|, |lo|);
    assert |hi + [x] + lo| == |hi| + 1 + |lo| == |hi' + [b] + lo|;
    ValueBound(hi' + [b] + lo);
    Regroup(y * w, Value(lo), add * w, over * (m * w), y' * w);
    ModShift(y * w + Value(lo) + add * w, over, m * w, y' * w + Value(lo));
  }

  lemma Regroup(a: int, b: int, c: int, d: int, e: int)
    requires e == a + c - d
    ensures e + b == a + b + c - d
  {
  }

  lemma AddAtTheEnd(hi: seq<Byte>, x: Byte, add: nat, b: Byte) returns (over: nat)
    requires 0 < add < 256 && b == (x as int + add) % 256
    ensures var hi' := if b < x then Incremented(hi) else hi;
            Value(hi' + [b]) == Value(hi + [x]) + add - over * (Pow2(8 * |hi|) * 256)
  {
    over := CarryOut(hi, b < x);
    ValueAppend(hi, x);
    ValueAppend(if b < x then Incremented(hi) else hi, b);
  }

  lemma CarryOut(hi: seq<Byte>, carry: bool) returns (over: nat)
    ensures var hi' := if carry then Incremented(hi) else hi;
            Value(hi') * 256 == (Value(hi) + if carry then 1 else 0) * 256 - over * (Pow2(8 * |hi|) * 256)
  {
    ValueBound(hi);
    IncrementedValue(hi);
    if carry && Value(hi) + 1 == Pow2(8 * |hi|) {
      ModSelf(Pow2(8 * |hi|));
      over := 1;
    } else {
      ModSmall(Value(hi) + if carry then 1 else 0, Pow2(8 * |hi|));
      over := 0;
    }
  }

  lemma ValueAppend(s: seq<Byte>, x: Byte)
    ensures Value(s + [x]) == Value(s) * 256 + x
  {
    assert (s + [x])[..|s|] == s;
  }

  lemma SpaceSplit(hi: nat, lo: nat)
    ensures Pow2(8 * (hi + 1 + lo)) == Pow2(8 * hi) * 256 * Pow2(8 * lo)
  {
    Pow2Add(8 * hi + 8, 8 * lo);
    Pow2Eight(8 * hi);
  }

  lemma Weigh(y: int, y': int, add: int, over: int, m: int, w: int)
    requires y' == y + add - over * m
    ensures y' * w == y * w + add * w - over * (m * w)
  {
    assert (over * m) * w == over * (m * w);
    assert (y + add) * w == y * w + add * w;
  }

  lemma ModShift(x: nat, k: nat, m: nat, r: nat)
    requires r < m && r == x - k * m
    ensures x % m == r
  {
    ModUnique(x % m, r, x / m, k, m);
  }

  lemma ModUnique(r: int, r': int, q: int, q': int, m: int)
    requires 0 <= r < m && 0 <= r' < m
    requires q * m + r == q' * m + r'
    ensures r == r' && q == q'
  {
    MulDifference(q, q', m);
    if q > q' {
      MulAtLeast(q - q', m);
    } else if q < q' {
      MulAtLeast(q' - q, m);
    }
  }

  lemma MulDifference(q: int, q': int, m: int)
    ensures (q - q') * m == q * m - q' * m
    ensures (q' - q) * m == q' * m - q * m
  {
  }

  lemma MulAtLeast(k: int, m: int)
    requires k >= 1 && m > 0
    ensures k * m >= m
  {
  }

  method IncSubnet(ip: array<Byte>, mask: nat)
    requires mask <= 8 * ip.Length
    modifies ip
    ensures ip[..] == SubnetIncremented(old(ip[..]), mask)
  {
    hide Incremented, SubnetBit;
    if mask == 0 {
      return;
    }
    ghost var was := ip[..];
    var start := (mask - 1) / 8;
    var add := SubnetBit(mask);
    var prev := ip[start];
    ip[start] := (ip[start] as int + add) % 256;
    ghost var mid := ip[..];
    assert mid[..start] == was[..start];
    assert mid[start..] == [mid[start]] + was[start + 1..];
    if ip[start] < prev {
      Carry(ip, start);
      assert ip[..] == Incremented(was[..start]) + [mid[start]] + was[start + 1..];
    } else {
      assert ip[..] == was[..start] + [mid[start]] + was[start + 1..];
    }
  }

  // ----- the two increments agree -----

  function Iterated(s: seq<Byte>, times: nat): (r: seq<Byte>)
    ensures |r| == |s|
  {
    if times == 0 then s else Incremented(Iterated(s, times - 1))
  }

  lemma {:induction false} IteratedValue(s: seq<Byte>, times: nat)
    ensures Value(Iterated(s, times)) == (Value(s) + times) % Pow2(8 * |s|)
  {
    var m := Pow2(8 * |s|);
    if times == 0 {
      ValueBound(s);
      ModSmall(Value(s), m);
    } else {
      IteratedValue(s, times - 1);
      IncrementedValue(Iterated(s, times - 1));
      ModSuccessor(Value(s) + times - 1, m);
    }
  }

  lemma ModSuccessor(x: nat, m: nat)
    requires m > 0
    ensures (x % m + 1) % m == (x + 1) % m
  {
    var q, r := x / m, x % m;
    assert x == q * m + r;
    if r + 1 == m {
      ModSelf(m);
      assert x + 1 == (q + 1) * m + 0 by { assert (q + 1) * m == q * m + m; }
      ModShift(x + 1, q + 1, m, 0);
    } else {
      ModSmall(r + 1, m);
      ModShift(x + 1, q, m, r + 1);
    }
  }

  /** Stepping by one subnet is stepping by one address 2^(8n - mask) times. */
  lemma SubnetIsIteratedInc(s: seq<Byte>, mask: nat)
    requires 0 < mask <= 8 * |s|
    ensures SubnetIncremented(s, mask) == Iterated(s, Pow2(8 * |s| - mask))
  {
    hide Pow2, Value, SubnetIncremented, Iterated;
    SubnetIncrementedValue(s, mask);
    IteratedValue(s, Pow2(8 * |s| - mask));
    ValueInjective(SubnetIncremented(s, mask), Iterated(s, Pow2(8 * |s| - mask)));
  }
}
