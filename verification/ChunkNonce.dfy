/** The response nonce counter of crates/ohttp-hpke/src/response.rs: a big-endian counter XORed
    into the initial nonce, octet by octet and in place. */
module ChunkNonce {
  import opened Bytes

  /** Exclusive or of the low `n` bits. */
  function XorBits(n: nat, a: nat, b: nat): nat {
    if n == 0 then 0
    else (if a % 2 == b % 2 then 0 else 1) + 2 * XorBits(n - 1, a / 2, b / 2)
  }

  function Pow2(n: nat): nat {
    if n == 0 then 1 else 2 * Pow2(n - 1)
  }

  lemma {:induction false} XorBitsBelow(n: nat, a: nat, b: nat)
    ensures XorBits(n, a, b) < Pow2(n)
  {
    if n > 0 { XorBitsBelow(n - 1, a / 2, b / 2); }
  }

  lemma {:induction false} XorBitsCancel(n: nat, a: nat, b: nat)
    requires a < Pow2(n)
    ensures XorBits(n, XorBits(n, a, b), b) == a
  {
    if n > 0 {
      var x := XorBits(n - 1, a / 2, b / 2);
      var r := XorBits(n, a, b);
      assert r / 2 == x && r % 2 == (if a % 2 == b % 2 then 0 else 1);
      XorBitsCancel(n - 1, a / 2, b / 2);
    }
  }

  lemma Pow2Of8()
    ensures Pow2(8) == 256
  {
    assert Pow2(4) == 16;
    assert Pow2(6) == 4 * Pow2(4);
  }

  function Xor(a: byte, b: byte): byte {
    XorBitsBelow(8, a, b);
    Pow2Of8();
    XorBits(8, a, b)
  }

  lemma XorCancel(a: byte, b: byte)
    ensures Xor(Xor(a, b), b) == a
  {
    Pow2Of8();
    XorBitsCancel(8, a, b);
  }

  function XorAll(a: bytes, b: bytes): (r: bytes)
    requires |a| == |b|
    ensures |r| == |a|
  {
    seq(|a|, i requires 0 <= i < |a| => Xor(a[i], b[i]))
  }

  /** The nonce of call `k`. */
  function NonceAt(initial: bytes, k: nat): (n: bytes)
    ensures |n| == |initial|
  {
    XorAll(ToBE(|initial|, k), initial)
  }

  // ---------- the exclusive or, bit by bit and octet by octet ----------

  lemma Pow2Positive(n: nat)
    ensures Pow2(n) > 0
  {
  }

  function Bit(v: nat, i: nat): nat {
    Pow2Positive(i);
    (v / Pow2(i)) % 2
  }

  lemma LowBit(v: nat)
    ensures Bit(v, 0) == v % 2
  {
    assert Pow2(0) == 1;
  }

  lemma BitNext(v: nat, i: nat)
    requires i > 0
    ensures Bit(v, i) == Bit(v / 2, i - 1)
  {
    Pow2Positive(i - 1);
    DivideTwice(v, 2, Pow2(i - 1));
  }

  lemma Quotient(x: nat, p: nat, q: nat, r: nat)
    requires r < p && x == q * p + r
    ensures x / p == q
  {
    var q' := x / p;
    assert x == q' * p + x % p;
    if q < q' {
      StepBelow(q, q', p);
    } else if q' < q {
      StepBelow(q', q, p);
    }
  }

  lemma Regroup(a: nat, p: nat, b: nat, m: nat)
    requires b < p && m > 0
    ensures (a * p + b) * m == a * (m * p) + b * m
    ensures b * m + m <= m * p
  {
    assert b + 1 <= p;
    assert (b + 1) * m <= p * m;
  }

  /** Dividing twice is dividing by the product. */
  lemma DivideTwice(v: nat, m: nat, p: nat)
    requires m > 0 && p > 0
    ensures m * p > 0 && v / (m * p) == (v / m) / p
  {
    Divided(v, m);
    Divided(v / m, p);
    var q, r := v / m, v % m;
    var a, b := q / p, q % p;
    Regroup(a, p, b, m);
    Product(b, m);
    var mp, bm := m * p, b * m;
    assert v == a * mp + (bm + r);
    Quotient(v, mp, a, bm + r);
  }

  lemma Divided(v: nat, m: nat)
    requires m > 0
    ensures v == (v / m) * m + v % m && v % m < m
  {
  }

  lemma XorStep(n: nat, a: nat, b: nat)
    requires n > 0
    ensures XorBits(n, a, b) / 2 == XorBits(n - 1, a / 2, b / 2)
    ensures XorBits(n, a, b) % 2 == (a % 2 + b % 2) % 2
  {
  }

  /** Bit `i` of the exclusive or is set if and only if it is set in exactly one of the two. */
  lemma {:induction false} XorBit(n: nat, a: nat, b: nat, i: nat)
    requires i < n
    ensures Bit(XorBits(n, a, b), i) == (Bit(a, i) + Bit(b, i)) % 2
  {
    hide Bit, Pow2, XorBits;
    XorStep(n, a, b);
    var r := XorBits(n, a, b);
    if i == 0 {
      LowBit(r);
      LowBit(a);
      LowBit(b);
    } else {
      BitNext(r, i);
      BitNext(a, i);
      BitNext(b, i);
      XorBit(n - 1, a / 2, b / 2, i - 1);
    }
  }

  /** Octet `i` of a big-endian number is its `n - 1 - i`th digit to the base 256. */
  lemma {:induction false} OctetAt(n: nat, v: nat, i: nat)
    requires i < n
    ensures ToBE(n, v)[i] == (v / Pow256(n - 1 - i)) % 256
  {
    if i < n - 1 {
      OctetAt(n - 1, v / 256, i);
      DivideTwice(v, 256, Pow256(n - 2 - i));
    }
  }

  /** Every bit of the nonce of call `k`: that of the initial nonce, flipped where `k` has a one. */
  lemma NonceBit(initial: bytes, k: nat, i: nat, bit: nat)
    requires i < |initial| && bit < 8
    ensures Bit(NonceAt(initial, k)[i], bit) ==
            (Bit(initial[i], bit) + Bit((k / Pow256(|initial| - 1 - i)) % 256, bit)) % 2
  {
    OctetAt(|initial|, k, i);
    XorBit(8, ToBE(|initial|, k)[i], initial[i], bit);
  }

  lemma {:induction false} XorZero(n: nat, b: nat)
    requires b < Pow2(n)
    ensures XorBits(n, 0, b) == b
  {
    if n > 0 { XorZero(n - 1, b / 2); }
  }

  lemma {:induction false} ZeroOctets(n: nat)
    ensures forall i :: 0 <= i < n ==> ToBE(n, 0)[i] == 0
  {
    if n > 0 { ZeroOctets(n - 1); }
  }

  /** Call zero takes the initial nonce itself. */
  lemma FirstNonce(initial: bytes)
    ensures NonceAt(initial, 0) == initial
  {
    ZeroOctets(|initial|);
    Pow2Of8();
    forall i | 0 <= i < |initial|
      ensures NonceAt(initial, 0)[i] == initial[i]
    {
      XorZero(8, initial[i]);
    }
  }

  /** No two calls within the counter's range share a nonce. */
  lemma NoncesDistinct(initial: bytes, j: nat, k: nat)
    requires j < Pow256(|initial|) && k < Pow256(|initial|)
    requires NonceAt(initial, j) == NonceAt(initial, k)
    ensures j == k
  {
    var n := |initial|;
    var a, b := ToBE(n, j), ToBE(n, k);
    forall i | 0 <= i < n
      ensures a[i] == b[i]
    {
      assert NonceAt(initial, j)[i] == NonceAt(initial, k)[i];
      XorCancel(a[i], initial[i]);
      XorCancel(b[i], initial[i]);
    }
    assert a == b;
    FromToBE(n, j);
    FromToBE(n, k);
  }

  function Repeat(b: byte, n: nat): (s: bytes)
    ensures |s| == n
    ensures forall i :: 0 <= i < n ==> s[i] == b
  {
    if n == 0 then [] else Repeat(b, n - 1) + [b]
  }

  /** Adding one ripples through a run of 255s and leaves zeros. */
  lemma {:induction false} Carry(p: bytes, q: bytes, m: nat)
    requires FromBE(q) == FromBE(p) + 1
    ensures FromBE(q + Repeat(0, m)) == FromBE(p + Repeat(255, m)) + 1
  {
    if m == 0 {
      assert q + Repeat(0, 0) == q && p + Repeat(255, 0) == p;
    } else {
      Carry(p, q, m - 1);
      var zeros, nines := q + Repeat(0, m), p + Repeat(255, m);
      assert zeros[..|zeros| - 1] == q + Repeat(0, m - 1);
      assert nines[..|nines| - 1] == p + Repeat(255, m - 1);
    }
  }

  lemma {:induction false} AllOnes(m: nat)
    ensures FromBE(Repeat(255, m)) == Pow256(m) - 1
    ensures FromBE(Repeat(0, m)) == 0
  {
    if m > 0 {
      AllOnes(m - 1);
      assert Repeat(255, m)[..m - 1] == Repeat(255, m - 1);
      assert Repeat(0, m)[..m - 1] == Repeat(0, m - 1);
    }
  }

  class ChunkNonce {
    const initial: bytes
    const counter: array<byte>
    const current: array<byte>

    constructor (nonce: bytes)
      ensures Valid() && initial == nonce && Count() == 0
      ensures fresh(counter) && fresh(current)
    {
      initial := nonce;
      counter := new byte[|nonce|](_ => 0);
      current := new byte[|nonce|](i requires 0 <= i < |nonce| => nonce[i]);
      new;
      AllOnes(|nonce|);
      assert counter[..] == Repeat(0, |nonce|);
    }

    ghost predicate Valid() {
      counter != current && counter.Length == |initial| == current.Length
    }

    /** The value of the counter: the nonces taken since it last started over. */
    ghost function Count(): nat
      reads counter
    {
      FromBE(counter[..])
    }

    /** The next nonce; the last value of the counter is refused, and the counter starts over. */
    method Next() returns (r: Option<bytes>)
      requires Valid()
      modifies counter, current
      ensures r == if old(Count()) < Pow256(|initial|) - 1 then Some(NonceAt(initial, old(Count()))) else None
      ensures Count() == if r.Some? then old(Count()) + 1 else 0
    {
      ghost var c := counter[..];
      for i := 0 to |initial|
        invariant counter[..] == c
        invariant forall j :: 0 <= j < i ==> current[j] == Xor(c[j], initial[j])
      {
        current[i] := Xor(counter[i], initial[i]);
      }
      ToFromBE(c);
      ghost var nonce := current[..];
      assert nonce == NonceAt(initial, old(Count()));
      var ok := Incr();
      assert current[..] == nonce;
      return if ok then Some(current[..]) else None;
    }

    method Incr() returns (ok: bool)
      requires Valid()
      modifies counter
      ensures ok <==> old(Count()) < Pow256(|initial|) - 1
      ensures Count() == if ok then old(Count()) + 1 else 0
    {
      hide FromBE, ToBE, Pow256, Repeat;
      ghost var c := counter[..];
      var n := counter.Length;
      ToFromBE(c);
      for i := n downto 0
        invariant counter[..i] == c[..i]
        invariant c[i..] == Repeat(255, n - i)
        invariant counter[i..] == Repeat(0, n - i)
      {
        var carry := counter[i] == 255;
        counter[i] := if carry then 0 else counter[i] + 1;
        assert counter[i + 1..] == Repeat(0, n - i - 1);
        if !carry {
          Bumped(c[..i], c[i], n - i - 1);
          assert c == c[..i] + [c[i]] + c[i + 1..];
          assert counter[..] == c[..i] + [c[i] + 1] + counter[i + 1..];
          return true;
        }
        RepeatFront(255, n - i - 1);
        RepeatFront(0, n - i - 1);
        assert c[i..] == [255] + c[i + 1..];
        assert counter[i..] == [0] + counter[i + 1..];
      }
      AllOnes(n);
      assert c == c[0..] && counter[..] == counter[0..];
      return false;
    }
  }

  lemma RepeatFront(b: byte, n: nat)
    ensures [b] + Repeat(b, n) == Repeat(b, n + 1)
  {
  }

  lemma Up(p: bytes, b: byte)
    requires b < 255
    ensures FromBE(p + [b + 1]) == FromBE(p + [b]) + 1
  {
    assert (p + [b])[..|p|] == p;
    assert (p + [b + 1])[..|p|] == p;
  }

  /** An octet below 255 goes up by one and everything after it wraps. */
  lemma Bumped(p: bytes, b: byte, m: nat)
    requires b < 255
    ensures FromBE(p + [b + 1] + Repeat(0, m)) == FromBE(p + [b] + Repeat(255, m)) + 1
    ensures FromBE(p + [b] + Repeat(255, m)) < Pow256(|p| + 1 + m) - 1
  {
    hide FromBE, ToBE, Pow256, Repeat;
    Up(p, b);
    Carry(p + [b], p + [b + 1], m);
    ToFromBE(p + [b + 1] + Repeat(0, m));
  }

  // ---------- whole runs ----------

  lemma StepBelow(q: nat, q': nat, p: nat)
    requires q < q'
    ensures q * p + p <= q' * p
  {
    Product(q' - q - 1, p);
    assert q' * p == q * p + p + (q' - q - 1) * p;
  }

  lemma Product(a: nat, b: nat)
    ensures 0 <= a * b
  {
  }

  lemma Remainder(x: nat, p: nat, q: nat, r: nat)
    requires r < p && x == q * p + r
    ensures x % p == r
  {
    var q' := x / p;
    assert x == q' * p + x % p;
    if q' < q {
      StepBelow(q', q, p);
    } else if q < q' {
      StepBelow(q, q', p);
    }
  }

  lemma NextRemainder(k: nat, p: nat)
    requires p > 0
    ensures (k + 1) % p == if k % p == p - 1 then 0 else k % p + 1
  {
    var q, r := k / p, k % p;
    assert k == q * p + r;
    if r == p - 1 {
      assert k + 1 == (q + 1) * p + 0;
      Remainder(k + 1, p, q + 1, 0);
    } else {
      Remainder(k + 1, p, q, r + 1);
    }
  }

  /** No nonce is handed out twice. */
  predicate NoReuse(out: seq<Option<bytes>>) {
    forall j, k :: 0 <= j < k < |out| && out[j].Some? ==> out[j] != out[k]
  }

  /** What call `k` of a fresh counter answers: every 256^n-th call is refused, and after it the
      nonces come round again. */
  function Answer(nonce: bytes, k: nat): Option<bytes> {
    var p := Pow256(|nonce|);
    if k % p == p - 1 then None else Some(NonceAt(nonce, k % p))
  }

  lemma AnswerBelow(nonce: bytes, k: nat)
    requires k < Pow256(|nonce|)
    ensures Answer(nonce, k) == if k == Pow256(|nonce|) - 1 then None else Some(NonceAt(nonce, k))
  {
    hide Pow256, NonceAt;
    Remainder(k, Pow256(|nonce|), 0, k);
  }

  lemma AnswerAgain(nonce: bytes)
    requires nonce != []
    ensures Answer(nonce, 0) == Answer(nonce, Pow256(|nonce|)) == Some(NonceAt(nonce, 0))
  {
    hide NonceAt;
    var p := Pow256(|nonce|);
    assert p > 1;
    hide Pow256;
    Remainder(0, p, 0, 0);
    Remainder(p, p, 1, 0);
  }

  lemma AnswersDistinct(nonce: bytes, out: seq<Option<bytes>>)
    requires forall k :: 0 <= k < |out| ==> out[k] == Answer(nonce, k)
    ensures nonce != [] ==> (NoReuse(out) <==> |out| <= Pow256(|nonce|))
    ensures nonce == [] ==> NoReuse(out)
  {
    hide NonceAt, Answer, Pow256;
    var p := Pow256(|nonce|);
    if nonce == [] {
      EmptyRefused(out);
    } else if |out| <= p {
      forall j, k | 0 <= j < k < |out| && out[j].Some?
        ensures out[j] != out[k]
      {
        AnswerBelow(nonce, j);
        AnswerBelow(nonce, k);
        if out[j] == out[k] {
          NoncesDistinct(nonce, j, k);
        }
      }
    } else {
      AnswerAgain(nonce);
      assert out[0] == Answer(nonce, 0) && out[p] == Answer(nonce, p);
    }
  }

  /** A counter of no octets has no nonce to give. */
  lemma EmptyRefused(out: seq<Option<bytes>>)
    requires forall k :: 0 <= k < |out| ==> out[k] == Answer([], k)
    ensures NoReuse(out)
  {
    assert Pow256(0) == 1;
  }

  /** A fresh counter asked `calls` times: call `k` gives nonce `k` until the counter runs out, and no
      nonce is given twice if and only if there are at most 256^n calls. */
  method Draw(nonce: bytes, calls: nat) returns (out: seq<Option<bytes>>)
    ensures |out| == calls && forall k :: 0 <= k < calls ==> out[k] == Answer(nonce, k)
    ensures forall k :: 0 <= k < calls && k < Pow256(|nonce|) - 1 ==> out[k] == Some(NonceAt(nonce, k))
    ensures nonce != [] ==> (NoReuse(out) <==> calls <= Pow256(|nonce|))
    ensures nonce == [] ==> NoReuse(out)
  {
    hide NonceAt, Pow256, NoReuse;
    var c := new ChunkNonce(nonce);
    ghost var p := Pow256(|nonce|);
    Remainder(0, p, 0, 0);
    out := [];
    for i := 0 to calls
      invariant c.Valid() && c.initial == nonce && fresh(c.counter) && fresh(c.current)
      invariant c.Count() == i % p
      invariant |out| == i && forall k :: 0 <= k < i ==> out[k] == Answer(nonce, k)
    {
      var r := c.Next();
      NextRemainder(i, p);
      out := out + [r];
    }
    forall k | 0 <= k < calls && k < p - 1
      ensures out[k] == Some(NonceAt(nonce, k))
    {
      Remainder(k, p, 0, k);
    }
    AnswersDistinct(nonce, out);
  }
}
