/**
 * A seeded entropy source: a provider over a fixed seed of bytes hands out
 * sources, and each source dispenses successive, contiguous slices of the
 * seed, `bitsRequired / 8` bytes per request, failing once the seed is used up.
 */
module SeededEntropy {
  import opened Wrappers

  /** The two ways the provider and its sources fail. */
  datatype Error =
    | InvalidSeed                      // construction without a seed (Java: IllegalArgumentException)
    | InsufficientEntropy(needed: nat) // too few unread bytes (Java: IllegalStateException)

  /** Number of whole bytes dispensed for a request of `bitsRequired` bits; a partial byte is dropped. */
  function ByteCount(bitsRequired: nat): (n: nat)
    ensures n * 8 <= bitsRequired < n * 8 + 8
  {
    bitsRequired / 8
  }

  /** The bytes handed out by one read, and the offset it leaves behind. */
  datatype Draw = Draw(bytes: seq<bv8>, next: nat)

  /** One `getEntropy` call on the seed `data` from offset `index`, as a value. */
  function DrawOnce(data: seq<bv8>, index: nat, bitsRequired: nat): (r: Result<Draw, Error>)
    ensures r.Failure? <==> index + ByteCount(bitsRequired) > |data|
    ensures r.Failure? ==> r.error == InsufficientEntropy(ByteCount(bitsRequired))
    ensures r.Success? ==>
              && r.value.next == index + ByteCount(bitsRequired) <= |data|
              && |r.value.bytes| == ByteCount(bitsRequired)
              && forall i :: 0 <= i < |r.value.bytes| ==> r.value.bytes[i] == data[index + i]
    ensures bitsRequired < 8 && index <= |data| ==> r == Success(Draw([], index))
  {
    var n := ByteCount(bitsRequired);
    if |data| < index + n then Failure(InsufficientEntropy(n))
    else Success(Draw(data[index..index + n], index + n))
  }

  /** `k` successive reads from offset `index`: their outputs concatenated, and the final offset. */
  function DrawMany(data: seq<bv8>, index: nat, bitsRequired: nat, k: nat): Result<Draw, Error>
    decreases k
  {
    if k == 0 then Success(Draw([], index))
    else
      match DrawOnce(data, index, bitsRequired)
      case Failure(e) => Failure(e)
      case Success(first) =>
        match DrawMany(data, first.next, bitsRequired, k - 1)
        case Failure(e) => Failure(e)
        case Success(rest) => Success(Draw(first.bytes + rest.bytes, rest.next))
  }

  /**
   * The bytes taken by `k` reads of `n` bytes each, counted read by read. It is
   * `k * n` (see `SpanIsProduct`); stating the offset invariant and the induction
   * with this sum instead of the product keeps the solver away from nonlinear
   * arithmetic, which made those proofs slow and brittle.
   */
  function Span(k: nat, n: nat): nat
  {
    if k == 0 then 0 else n + Span(k - 1, n)
  }

  /** Counting read by read agrees with multiplying: `k` reads of `n` bytes take `k * n` bytes. */
  lemma {:induction false} SpanIsProduct(k: nat, n: nat)
    ensures Span(k, n) == k * n
  {
    if k > 0 {
      SpanIsProduct(k - 1, n);
      assert k * n == n + (k - 1) * n;
    }
  }

  /** Inductive core of `DrawManyContiguous`, counting the bytes taken with `Span`. */
  lemma {:induction false} DrawManySpan(data: seq<bv8>, index: nat, bitsRequired: nat, k: nat)
    requires index <= |data|
    decreases k
    ensures DrawMany(data, index, bitsRequired, k).Success? <==> index + Span(k, ByteCount(bitsRequired)) <= |data|
    ensures DrawMany(data, index, bitsRequired, k).Success? ==>
              && DrawMany(data, index, bitsRequired, k).value.bytes == data[index..index + Span(k, ByteCount(bitsRequired))]
              && DrawMany(data, index, bitsRequired, k).value.next == index + Span(k, ByteCount(bitsRequired))
  {
    var n := ByteCount(bitsRequired);
    if k > 0 && index + n <= |data| {
      var rest := Span(k - 1, n);
      assert DrawOnce(data, index, bitsRequired) == Success(Draw(data[index..index + n], index + n));
      DrawManySpan(data, index + n, bitsRequired, k - 1);
      if DrawMany(data, index + n, bitsRequired, k - 1).Success? {
        assert data[index..index + n + rest] == data[index..index + n] + data[index + n..index + n + rest];
      }
    }
  }

  /**
   * Successive reads hand out contiguous, non-overlapping slices: `k` reads from
   * offset `index` succeed exactly when `k * n` bytes remain, and together they
   * return the seed's next `k * n` bytes, leaving the offset `k * n` further on.
   */
  lemma DrawManyContiguous(data: seq<bv8>, index: nat, bitsRequired: nat, k: nat)
    requires index <= |data|
    ensures DrawMany(data, index, bitsRequired, k).Success? <==> index + k * ByteCount(bitsRequired) <= |data|
    ensures DrawMany(data, index, bitsRequired, k).Success? ==>
              && DrawMany(data, index, bitsRequired, k).value.bytes == data[index..index + k * ByteCount(bitsRequired)]
              && DrawMany(data, index, bitsRequired, k).value.next == index + k * ByteCount(bitsRequired)
  {
    DrawManySpan(data, index, bitsRequired, k);
    SpanIsProduct(k, ByteCount(bitsRequired));
  }

  /** From a fresh source, `k` reads succeed exactly when the seed holds `k * n` bytes, and return its first `k * n` bytes. */
  lemma FreshSourcePrefix(data: seq<bv8>, bitsRequired: nat, k: nat)
    ensures DrawMany(data, 0, bitsRequired, k).Success? <==> k * ByteCount(bitsRequired) <= |data|
    ensures DrawMany(data, 0, bitsRequired, k).Success? ==>
              && DrawMany(data, 0, bitsRequired, k).value.bytes == data[..k * ByteCount(bitsRequired)]
              && DrawMany(data, 0, bitsRequired, k).value.next == k * ByteCount(bitsRequired)
  {
    DrawManyContiguous(data, 0, bitsRequired, k);
  }

  /** The seed check of the provider's constructor: only a missing seed is refused; an empty one is accepted. */
  function CheckSeed(seed: Option<seq<bv8>>): (r: Result<seq<bv8>, Error>)
    ensures r.Failure? <==> seed.None?
    ensures r.Failure? ==> r.error == InvalidSeed
    ensures r.Success? ==> r.value == seed.value
  {
    match seed
    case None => Failure(InvalidSeed)
    case Some(data) => Success(data)
  }

  /**
   * Copies `length` bytes of `src` from `srcPos` into `dest` at `destPos`, as
   * `System.arraycopy` does; the rest of `dest` is left as it was.
   */
  method ArrayCopy(src: seq<bv8>, srcPos: nat, dest: array<bv8>, destPos: nat, length: nat)
    requires srcPos + length <= |src| && destPos + length <= dest.Length
    modifies dest
    ensures dest[..] == old(dest[..destPos]) + src[srcPos..srcPos + length] + old(dest[destPos + length..])
  {
    var i := 0;
    while i < length
      invariant 0 <= i <= length
      invariant forall j :: destPos <= j < destPos + i ==> dest[j] == src[srcPos + (j - destPos)]
      invariant forall j :: 0 <= j < destPos ==> dest[j] == old(dest[j])
      invariant forall j :: destPos + length <= j < dest.Length ==> dest[j] == old(dest[j])
    {
      dest[destPos + i] := src[srcPos + i];
      i := i + 1;
    }
    assert dest[..] == old(dest[..destPos]) + src[srcPos..srcPos + length] + old(dest[destPos + length..]);
  }

  /** The prefix up to `index + n` is the prefix up to `index` followed by the next `n` bytes. */
  lemma PrefixExtends(data: seq<bv8>, index: nat, n: nat)
    requires index + n <= |data|
    ensures data[..index + n] == data[..index] + data[index..index + n]
  {
  }

  /** The provider: a seed shared by every source it hands out. The seed is never written. */
  class Provider {
    const data: seq<bv8>

    constructor (data: seq<bv8>)
      ensures this.data == data
    {
      this.data := data;
    }

    /** A fresh, independent source reading `bitsRequired` bits per request, starting at offset 0. */
    method Get(bitsRequired: nat) returns (s: Source)
      ensures fresh(s) && s.Valid()
      ensures s.data == data && s.bitsRequired == bitsRequired
      ensures s.index == 0 && s.Dispensed == [] && s.Reads == 0
    {
      s := new Source(data, bitsRequired);
    }
  }

  /** Builds a provider; a missing seed fails with `InvalidSeed`, any present seed (even an empty one) is accepted. */
  method NewProvider(seed: Option<seq<bv8>>) returns (r: Result<Provider, Error>)
    ensures r.Failure? <==> seed.None?
    ensures r.Failure? ==> r.error == InvalidSeed
    ensures r.Success? ==> fresh(r.value) && r.value.data == seed.value
  {
    match CheckSeed(seed)
    case Failure(e) =>
      r := Failure(e);
    case Success(data) =>
      var p := new Provider(data);
      r := Success(p);
  }

  /** A source: a private offset into the shared seed and the bit width it was configured with. */
  class Source {
    const data: seq<bv8>
    const bitsRequired: nat
    var index: nat
    /** Everything this source has handed out so far, in order. */
    ghost var Dispensed: seq<bv8>
    /** The number of successful reads so far. */
    ghost var Reads: nat

    /** The offset stays within the seed, and what has been handed out is exactly the seed's prefix up to it. */
    ghost predicate Valid()
      reads this
    {
      && index <= |data|
      && index == Span(Reads, ByteCount(bitsRequired))
      && Dispensed == data[..index]
    }

    constructor (data: seq<bv8>, bitsRequired: nat)
      ensures Valid()
      ensures this.data == data && this.bitsRequired == bitsRequired
      ensures index == 0 && Dispensed == [] && Reads == 0
    {
      this.data := data;
      this.bitsRequired := bitsRequired;
      index := 0;
      Dispensed := [];
      Reads := 0;
    }

    /** The source always declares itself prediction resistant. */
    function IsPredictionResistant(): (r: bool)
      ensures r
    {
      true
    }

    /** The configured bit width, whatever reads have happened. */
    function EntropySize(): (r: nat)
      ensures r == bitsRequired
    {
      bitsRequired
    }

    /**
     * Hands out the next `bitsRequired / 8` bytes in a fresh array and advances
     * the offset past them; when too few bytes remain, fails and changes nothing.
     */
    method GetEntropy() returns (r: Result<array<bv8>, Error>)
      requires Valid()
      modifies this
      ensures Valid()
      ensures r.Failure? <==> DrawOnce(data, old(index), bitsRequired).Failure?
      ensures r.Failure? ==>
                && r.error == DrawOnce(data, old(index), bitsRequired).error
                && index == old(index) && Dispensed == old(Dispensed) && Reads == old(Reads)
      ensures r.Success? ==>
                && fresh(r.value)
                && r.value[..] == DrawOnce(data, old(index), bitsRequired).value.bytes
                && index == DrawOnce(data, old(index), bitsRequired).value.next
                && Dispensed == old(Dispensed) + r.value[..]
                && Reads == old(Reads) + 1
    {
      var rv := new bv8[bitsRequired / 8];
      if |data| < index + rv.Length {
        r := Failure(InsufficientEntropy(rv.Length));
        return;
      }
      ArrayCopy(data, index, rv, 0, rv.Length);
      assert rv.Length == ByteCount(bitsRequired);
      assert rv[..] == data[index..index + rv.Length];
      PrefixExtends(data, index, rv.Length);
      index := index + bitsRequired / 8;
      Dispensed := Dispensed + rv[..];
      Reads := Reads + 1;
      r := Success(rv);
    }
  }

  /**
   * Two sources got from one provider do not share an offset: reading from the
   * first leaves the second at offset 0, so both return the seed's first slice.
   */
  method IndependentSources(p: Provider, bitsRequired: nat) returns (first: Result<seq<bv8>, Error>, second: Result<seq<bv8>, Error>)
    ensures first == second
    ensures first.Failure? <==> ByteCount(bitsRequired) > |p.data|
    ensures first.Success? ==> first.value == p.data[..ByteCount(bitsRequired)]
  {
    var a := p.Get(bitsRequired);
    var b := p.Get(bitsRequired);
    var x := a.GetEntropy();
    var y := b.GetEntropy();
    first := if x.Success? then Success(x.value[..]) else Failure(x.error);
    second := if y.Success? then Success(y.value[..]) else Failure(y.error);
  }

  /**
   * A 16-byte seed read 64 bits at a time: the first read returns bytes 0..7,
   * the second bytes 8..15, and the third fails needing 8 bytes.
   */
  lemma SixteenByteSeed(seed: seq<bv8>)
    requires |seed| == 16
    ensures DrawOnce(seed, 0, 64) == Success(Draw(seed[..8], 8))
    ensures DrawOnce(seed, 8, 64) == Success(Draw(seed[8..], 16))
    ensures DrawOnce(seed, 16, 64) == Failure(InsufficientEntropy(8))
    ensures DrawMany(seed, 0, 64, 2) == Success(Draw(seed, 16))
  {
    assert seed[8..8 + 8] == seed[8..];
    assert seed[..8] + seed[8..] == seed;
    assert DrawMany(seed, 16, 64, 0) == Success(Draw([], 16));
    assert DrawOnce(seed, 8, 64) == Success(Draw(seed[8..], 16));
    assert seed[8..] + [] == seed[8..];
    assert DrawMany(seed, 8, 64, 1) == Success(Draw(seed[8..], 16));
  }

  /** A request for 12 bits takes one byte: the four extra bits are dropped. */
  lemma TwelveBitsTakeOneByte(data: seq<bv8>, index: nat)
    requires index < |data|
    ensures DrawOnce(data, index, 12) == Success(Draw([data[index]], index + 1))
  {
    assert data[index..index + 1] == [data[index]];
  }
}
