/**
  `lzo_adler32`: 32-bit sums that are reduced once per chunk, against the per-byte definition of RFC 1950,
  section 2.2.
*/
module Adler32 {
  import opened Bytes

  const BASE := 65521
  const NMAX := 5552
  const WORD := 0x1_0000_0000

  datatype Sums = Sums(s1: nat, s2: nat)

  // ---------- the definition ----------

  /** One byte: it goes into the first sum, the first sum into the second, both modulo 65521. */
  function FoldByte(s: Sums, b: nat): Sums {
    var s1 := (s.s1 + b) % BASE;
    Sums(s1, (s.s2 + s1) % BASE)
  }

  /** Byte by byte. */
  function Fold(s: Sums, data: seq<byte>): Sums {
    if data == [] then s
    else
      FoldByte(Fold(s, data[..|data| - 1]), data[|data| - 1] as nat)
  }

  function Unpack(adler: nat): Sums {
    Sums(adler % 0x10000, (adler / 0x10000) % 0x10000)
  }

  function Pack(s: Sums): nat {
    s.s2 * 0x10000 + s.s1
  }

  /** The checksum after `data`, from any 32-bit starting value, reduced or not. */
  function Checksum(adler: nat, data: seq<byte>): nat {
    if data == [] then adler else Pack(Fold(Unpack(adler), data))
  }

  // ---------- the 32-bit sums ----------

  /** A sum in a 32-bit register. */
  function Add(a: nat, b: nat): nat {
    (a + b) % WORD
  }

  /** LZO_DO1 to LZO_DO16. */
  function Do1(s: Sums, buf: seq<byte>, i: nat): Sums
    requires i < |buf|
  {
    var s1 := Add(s.s1, buf[i] as nat);
    Sums(s1, Add(s.s2, s1))
  }

  function Do2(s: Sums, buf: seq<byte>, i: nat): Sums
    requires i + 2 <= |buf|
  {
    Do1(Do1(s, buf, i), buf, i + 1)
  }

  function Do4(s: Sums, buf: seq<byte>, i: nat): Sums
    requires i + 4 <= |buf|
  {
    Do2(Do2(s, buf, i), buf, i + 2)
  }

  function Do8(s: Sums, buf: seq<byte>, i: nat): Sums
    requires i + 8 <= |buf|
  {
    Do4(Do4(s, buf, i), buf, i + 4)
  }

  function Do16(s: Sums, buf: seq<byte>, i: nat): Sums
    requires i + 16 <= |buf|
  {
    Do8(Do8(s, buf, i), buf, i + 8)
  }

  /** The registers after the bytes `buf[i..j]`, one at a time. */
  function Registers(s: Sums, buf: seq<byte>, i: nat, j: nat): Sums
    requires i <= j <= |buf|
    decreases j - i
  {
    if i == j then s else Do1(Registers(s, buf, i, j - 1), buf, j - 1)
  }

  /** Sixteen unrolled steps are sixteen steps. */
  lemma Do16IsSixteen(s: Sums, buf: seq<byte>, i: nat, j: nat)
    requires i <= j && j + 16 <= |buf|
    ensures Do16(Registers(s, buf, i, j), buf, j) == Registers(s, buf, i, j + 16)
  {
    Do8IsEight(s, buf, i, j);
    Do8IsEight(s, buf, i, j + 8);
  }

  lemma Do8IsEight(s: Sums, buf: seq<byte>, i: nat, j: nat)
    requires i <= j && j + 8 <= |buf|
    ensures Do8(Registers(s, buf, i, j), buf, j) == Registers(s, buf, i, j + 8)
  {
    Do4IsFour(s, buf, i, j);
    Do4IsFour(s, buf, i, j + 4);
  }

  lemma Do4IsFour(s: Sums, buf: seq<byte>, i: nat, j: nat)
    requires i <= j && j + 4 <= |buf|
    ensures Do4(Registers(s, buf, i, j), buf, j) == Registers(s, buf, i, j + 4)
  {
    assert Do2(Registers(s, buf, i, j), buf, j) == Registers(s, buf, i, j + 2);
    assert Do2(Registers(s, buf, i, j + 2), buf, j + 2) == Registers(s, buf, i, j + 4);
  }

  // ---------- no register wraps ----------

  /** The same sums over the integers. */
  function Exact(s: Sums, buf: seq<byte>, i: nat, j: nat): Sums
    requires i <= j <= |buf|
    decreases j - i
  {
    if i == j then s
    else
      var init := Exact(s, buf, i, j - 1);
      var s1 := init.s1 + buf[j - 1] as nat;
      Sums(s1, init.s2 + s1)
  }

  /** The largest the sums can get after `n` bytes from any pair of 16-bit halves. */
  function Worst(n: nat): Sums {
    Sums(65535 + 255 * n, 65535 * (n + 1) + 255 * (n * (n + 1) / 2))
  }

  lemma Triangle(n: nat)
    ensures (n + 1) * (n + 2) / 2 == n * (n + 1) / 2 + (n + 1)
  {
    assert (n + 1) * (n + 2) == n * (n + 1) + 2 * (n + 1);
  }

  lemma {:induction false} ExactIsBounded(s: Sums, buf: seq<byte>, i: nat, j: nat)
    requires i <= j <= |buf| && s.s1 <= 65535 && s.s2 <= 65535
    ensures Exact(s, buf, i, j).s1 <= Worst(j - i).s1
    ensures Exact(s, buf, i, j).s2 <= Worst(j - i).s2
    decreases j - i
  {
    if i < j {
      ExactIsBounded(s, buf, i, j - 1);
      Triangle(j - i - 1);
    }
  }

  lemma WorstGrows(m: nat, n: nat)
    requires m <= n
    ensures Worst(m).s1 <= Worst(n).s1 && Worst(m).s2 <= Worst(n).s2
    decreases n - m
  {
    if m < n {
      Triangle(m);
      WorstGrows(m + 1, n);
    }
  }

  lemma FitsWord(n: nat)
    requires n <= NMAX
    ensures Worst(n).s1 < WORD && Worst(n).s2 < WORD
  {
    WorstGrows(n, NMAX);
    assert NMAX * (NMAX + 1) / 2 == 15415128;
  }

  /** Within one chunk the registers hold the exact sums, whatever 16-bit halves it starts from. */
  lemma {:induction false} NoWrap(s: Sums, buf: seq<byte>, i: nat, j: nat)
    requires i <= j <= |buf| && j - i <= NMAX && s.s1 <= 65535 && s.s2 <= 65535
    ensures Registers(s, buf, i, j) == Exact(s, buf, i, j)
    ensures Exact(s, buf, i, j).s1 < WORD && Exact(s, buf, i, j).s2 < WORD
    decreases j - i
  {
    hide Worst, Add;
    ExactIsBounded(s, buf, i, j);
    FitsWord(j - i);
    if i < j {
      NoWrap(s, buf, i, j - 1);
      var e := Exact(s, buf, i, j - 1);
      AddFits(e.s1, buf[j - 1] as nat);
      AddFits(e.s2, e.s1 + buf[j - 1] as nat);
    }
  }

  lemma AddFits(a: nat, b: nat)
    requires a + b < WORD
    ensures Add(a, b) == a + b
  {
  }

  /** The chunk length is the largest with that property: one byte more can wrap the second sum. */
  lemma OneMoreWraps(buf: seq<byte>)
    requires |buf| == NMAX + 1 && forall k :: 0 <= k < |buf| ==> buf[k] == 255
    ensures Exact(Sums(65535, 65535), buf, 0, NMAX + 1).s2 >= WORD
  {
    WorstIsReached(buf, NMAX + 1);
    assert (NMAX + 1) * (NMAX + 2) / 2 == 15420681;
  }

  lemma {:induction false} WorstIsReached(buf: seq<byte>, n: nat)
    requires n <= |buf| && forall k :: 0 <= k < |buf| ==> buf[k] == 255
    ensures Exact(Sums(65535, 65535), buf, 0, n) == Worst(n)
  {
    if n > 0 {
      WorstIsReached(buf, n - 1);
      Triangle(n - 1);
    }
  }

  // ---------- delayed reduction ----------

  function Reduce(s: Sums): Sums {
    Sums(s.s1 % BASE, s.s2 % BASE)
  }

  /** Reducing once at the end gives what reducing after every byte gives. */
  lemma {:induction false} ReduceOnce(s: Sums, buf: seq<byte>, i: nat, j: nat)
    requires i < j <= |buf|
    ensures Reduce(Exact(s, buf, i, j)) == Fold(s, buf[i..j])
    decreases j - i
  {
    var data := buf[i..j];
    assert data[..|data| - 1] == buf[i..j - 1] && data[|data| - 1] == buf[j - 1];
    var e := Exact(s, buf, i, j - 1);
    if i + 1 == j {
      assert buf[i..j - 1] == [];
      StepOnce(e, buf[i] as nat);
    } else {
      ReduceOnce(s, buf, i, j - 1);
      StepReduced(e, buf[j - 1] as nat);
    }
  }

  lemma StepOnce(e: Sums, b: nat)
    ensures Reduce(Sums(e.s1 + b, e.s2 + (e.s1 + b))) == FoldByte(e, b)
  {
    ModOfSum(e.s2, e.s1 + b);
  }

  lemma StepReduced(e: Sums, b: nat)
    ensures Reduce(Sums(e.s1 + b, e.s2 + (e.s1 + b))) == FoldByte(Reduce(e), b)
  {
    StepOnce(e, b);
    ModOfSum(b, e.s1);
    ModOfSum((e.s1 + b) % BASE, e.s2);
  }

  lemma ModOfSum(a: nat, b: nat)
    ensures (a + b) % BASE == (a + b % BASE) % BASE
  {
    var q := b / BASE;
    assert b == q * BASE + b % BASE;
    ModOfMultiple(a + b % BASE, q);
  }

  lemma {:induction false} ModOfMultiple(a: nat, q: nat)
    ensures (a + q * BASE) % BASE == a % BASE
  {
    if q > 0 {
      ModOfMultiple(a, q - 1);
      assert a + q * BASE == a + (q - 1) * BASE + BASE;
    }
  }

  // ---------- chaining ----------

  lemma {:induction false} FoldConcat(s: Sums, x: seq<byte>, y: seq<byte>)
    ensures Fold(s, x + y) == Fold(Fold(s, x), y)
    decreases |y|
  {
    if y == [] {
      assert x + y == x;
    } else {
      var init := y[..|y| - 1];
      assert (x + y)[..|x + y| - 1] == x + init;
      FoldConcat(s, x, init);
    }
  }

  lemma FoldIsReduced(s: Sums, data: seq<byte>)
    requires data != []
    ensures Fold(s, data).s1 < BASE && Fold(s, data).s2 < BASE
  {
  }

  lemma UnpackPack(s: Sums)
    requires s.s1 < 0x10000 && s.s2 < 0x10000
    ensures Unpack(Pack(s)) == s
  {
  }

  /** Checksumming in pieces gives the checksum of the whole. */
  lemma ChecksumConcat(adler: nat, x: seq<byte>, y: seq<byte>)
    requires adler < WORD
    ensures Checksum(Checksum(adler, x), y) == Checksum(adler, x + y)
  {
    if x == [] {
      assert x + y == y;
    } else if y == [] {
      assert x + y == x;
    } else {
      var s := Unpack(adler);
      FoldConcat(s, x, y);
      FoldIsReduced(s, x);
      UnpackPack(Fold(s, x));
    }
  }

  // ---------- in closed form ----------

  function Sum(data: seq<byte>): nat {
    if data == [] then 0 else data[0] as nat + Sum(data[1..])
  }

  /** The first byte counts as often as there are bytes, the last one once. */
  function Weighted(data: seq<byte>): nat {
    if data == [] then 0 else |data| * data[0] as nat + Weighted(data[1..])
  }

  lemma {:induction false} SumSnoc(data: seq<byte>, b: byte)
    ensures Sum(data + [b]) == Sum(data) + b as nat
    ensures Weighted(data + [b]) == Weighted(data) + Sum(data) + b as nat
  {
    var all := data + [b];
    if data == [] {
      assert all[1..] == [];
    } else {
      assert all[1..] == data[1..] + [b];
      SumSnoc(data[1..], b);
      assert |all| * data[0] as nat == |data| * data[0] as nat + data[0] as nat;
    }
  }

  lemma NothingSummed()
    ensures Checksum(1, []) == 1 && Sum([]) == 0 && Weighted([]) == 0
  {
  }

  lemma {:induction false} ExactIsSums(s: Sums, data: seq<byte>, n: nat)
    requires n <= |data|
    ensures Exact(s, data, 0, n) == Sums(s.s1 + Sum(data[..n]), s.s2 + n * s.s1 + Weighted(data[..n]))
  {
    hide Sum, Weighted;
    if n == 0 {
      NothingSummed();
    } else {
      ExactIsSums(s, data, n - 1);
      assert n * s.s1 == (n - 1) * s.s1 + s.s1;
      assert data[..n] == data[..n - 1] + [data[n - 1]];
      SumSnoc(data[..n - 1], data[n - 1]);
    }
  }

  lemma Halves(lo: nat, hi: nat)
    requires lo < 65536
    ensures (hi * 65536 + lo) % 65536 == lo && (hi * 65536 + lo) / 65536 == hi
  {
  }

  /** The low half is the sum of the bytes, the high half the weighted one, modulo the largest prime below 65536. */
  lemma ClosedForm(adler: nat, data: seq<byte>)
    requires adler < 0x1_0000_0000 && data != []
    ensures Checksum(adler, data) % 65536 == (adler % 65536 + Sum(data)) % 65521
    ensures Checksum(adler, data) / 65536 == (adler / 65536 + |data| * (adler % 65536) + Weighted(data)) % 65521
  {
    hide Sum, Weighted, Fold, Exact;
    var s := Unpack(adler);
    ReduceOnce(s, data, 0, |data|);
    ExactIsSums(s, data, |data|);
    assert data[0..|data|] == data && data[..|data|] == data;
    var r := Reduce(Exact(s, data, 0, |data|));
    Halves(r.s1, r.s2);
  }

  /** From 1, the starting value of section 2.2 of RFC 1950, for every buffer. */
  lemma ClosedFormFromOne(data: seq<byte>)
    ensures Checksum(1, data) % 65536 == (1 + Sum(data)) % 65521
    ensures Checksum(1, data) / 65536 == (|data| + Weighted(data)) % 65521
  {
    hide Checksum, Sum, Weighted;
    if data == [] {
      NothingSummed();
    } else {
      ClosedForm(1, data);
      assert 1 % 65536 == 1 && 1 / 65536 == 0 && |data| * 1 == |data|;
    }
  }

  // ---------- the method ----------

  datatype Buffer = Null | Buffer(data: seq<byte>)

  /** One chunk: sixteen bytes at a time, then the rest. */
  method SumChunk(s: Sums, buf: seq<byte>, i: nat, k: nat) returns (r: Sums)
    requires i + k <= |buf|
    ensures r == Registers(s, buf, i, i + k)
  {
    r := s;
    var at, left := i, k;
    while left >= 16
      invariant at + left == i + k && i <= at
      invariant r == Registers(s, buf, i, at)
    {
      Do16IsSixteen(s, buf, i, at);
      r := Do16(r, buf, at);
      at, left := at + 16, left - 16;
    }
    while left > 0
      invariant at + left == i + k && i <= at
      invariant r == Registers(s, buf, i, at)
    {
      r := Do1(r, buf, at);
      at, left := at + 1, left - 1;
    }
  }

  /** A chunk of at most `NMAX` bytes, reduced: the registers never wrap and the result is the definition's. */
  lemma ChunkIsFold(s: Sums, buf: seq<byte>, i: nat, j: nat)
    requires i < j <= |buf| && j - i <= NMAX && s.s1 <= 65535 && s.s2 <= 65535
    ensures Reduce(Registers(s, buf, i, j)) == Fold(s, buf[i..j])
  {
    NoWrap(s, buf, i, j);
    ReduceOnce(s, buf, i, j);
  }

  lemma NothingYet(adler: nat)
    requires adler < WORD
    ensures Fold(Unpack(adler), []) == Unpack(adler)
    ensures Pack(Unpack(adler)) == adler
    ensures Unpack(adler).s1 <= 65535 && Unpack(adler).s2 <= 65535
  {
  }

  method Adler(adler: nat, buf: Buffer) returns (r: nat)
    requires adler < WORD
    ensures buf.Null? ==> r == 1
    ensures buf.Buffer? ==> r == Checksum(adler, buf.data) < WORD
  {
    hide Fold, Registers;
    if buf.Null? { return 1; }
    NothingYet(adler);
    var data := buf.data;
    ghost var start := Unpack(adler);
    var s := Unpack(adler);
    var at: nat, len: nat := 0, |data|;
    while len > 0
      invariant at + len == |data|
      invariant s.s1 <= 65535 && s.s2 <= 65535
      invariant s == Fold(start, data[..at])
    {
      var k := if len < NMAX then len else NMAX;
      len := len - k;
      var sums := SumChunk(s, data, at, k);
      ChunkIsFold(s, data, at, at + k);
      FoldConcat(start, data[..at], data[at..at + k]);
      assert data[..at + k] == data[..at] + data[at..at + k];
      FoldIsReduced(s, data[at..at + k]);
      s := Sums(sums.s1 % BASE, sums.s2 % BASE);
      at := at + k;
    }
    assert data[..at] == data;
    r := Pack(s);
  }
}
