/** LZMA2Decoder: the check of an LZMA2 filter's one-byte properties and
    the dictionary size they encode, which a process-wide default can
    override. The decompression the decoder hands on to is not part of
    this model. */
module Lzma2 {
  import opened Wrappers
  import opened Exceptions
  import opened Bytes

  /** The largest properties byte the decoder accepts: 37 encodes
      3 * 2^29 bytes, 1.5 GiB, the largest size an `int` holds. */
  const MAX_PROPS: int := 37

  /** 2^n. */
  function Pow2(n: nat): (r: nat)
    ensures r >= 1
  {
    if n == 0 then 1 else 2 * Pow2(n - 1)
  }

  /** Java's `x << n` on `int`: the shift count taken modulo 32, the
      product wrapped to 32 bits. */
  function ShiftLeft(x: int, n: int): (r: int)
    ensures IsInt32(r)
  {
    Int32(x * Pow2(n % 32))
  }

  /** The dictionary size a properties byte p encodes: 2 | (p & 1),
      shifted left by (p >>> 1) + 11. */
  function PropsDictSize(p: byte): int
  {
    ShiftLeft(2 + p % 2, p / 2 + 11)
  }

  /** The decoder's dictSize for the properties and DEFAULT_DICT_SIZE:
      anything but a single byte of at most 37 is rejected with
      UnsupportedOptionsException; otherwise a positive default wins over
      the properties. */
  function DictSize(props: seq<byte>, defaultDictSize: int): (r: Result<int, Exception>)
  {
    if |props| != 1 || props[0] > MAX_PROPS then Failure(UnsupportedOptionsException(UNSUPPORTED_LZMA2))
    else if defaultDictSize > 0 then Success(defaultDictSize)
    else Success(PropsDictSize(props[0]))
  }

  /** Exactly the single bytes up to 37 are accepted, whatever the
      default. */
  lemma DictSizeAccepts(props: seq<byte>, defaultDictSize: int)
    ensures DictSize(props, defaultDictSize).Success? <==> |props| == 1 && props[0] <= MAX_PROPS
    ensures DictSize(props, defaultDictSize).Failure? ==>
      DictSize(props, defaultDictSize).error == UnsupportedOptionsException(UNSUPPORTED_LZMA2)
  {
  }

  /** A positive default is the size for every accepted properties byte;
      a default of 0 or less leaves the size the properties give. */
  lemma DefaultOverrides(props: seq<byte>, defaultDictSize: int)
    requires |props| == 1 && props[0] <= MAX_PROPS
    ensures defaultDictSize > 0 ==> DictSize(props, defaultDictSize) == Success(defaultDictSize)
    ensures defaultDictSize <= 0 ==> DictSize(props, defaultDictSize) == DictSize(props, 0)
    ensures DictSize(props, 0) == Success(PropsDictSize(props[0]))
  {
  }

  /** 2^n grows with n. */
  lemma {:induction false} Pow2Monotone(m: nat, n: nat)
    requires m <= n
    ensures Pow2(m) <= Pow2(n)
    decreases n
  {
    if m < n {
      Pow2Monotone(m, n - 1);
    }
  }

  /** 2^11 and 2^29. */
  lemma Pow2Values()
    ensures Pow2(11) == 2048 && Pow2(29) == 0x2000_0000
  {
    assert Pow2(4) == 16;
    assert Pow2(8) == 256;
    assert Pow2(11) == 2048;
    assert Pow2(16) == 0x1_0000;
    assert Pow2(24) == 0x100_0000;
  }

  /** For an accepted byte the shift neither wraps nor loses bits: the size
      is (2 + p % 2) * 2^(p / 2 + 11), from 4 KiB up to 1.5 GiB. */
  lemma PropsDictSizeRange(p: byte)
    requires p <= MAX_PROPS
    ensures p % 2 == 0 ==> PropsDictSize(p) == 2 * Pow2(p / 2 + 11)
    ensures p % 2 == 1 ==> PropsDictSize(p) == 3 * Pow2(p / 2 + 11)
    ensures 4096 <= PropsDictSize(p) <= 3 * 0x2000_0000
  {
    var k := p / 2 + 11;
    Pow2Values();
    Pow2Monotone(11, k);
    Pow2Monotone(k, 29);
    assert k % 32 == k;
    if p % 2 == 0 {
      assert 4096 <= 2 * Pow2(k) <= 3 * 0x2000_0000;
      assert PropsDictSize(p) == Int32(2 * Pow2(k));
    } else {
      assert 4096 <= 3 * Pow2(k) <= 3 * 0x2000_0000;
      assert PropsDictSize(p) == Int32(3 * Pow2(k));
    }
  }

  /** Each properties byte up to 36 encodes a smaller size than the next
      one: 2^(k+12) for p = 2k, then 3 * 2^(k+11), then 2^(k+13). */
  lemma PropsDictSizeStep(p: byte)
    requires p < MAX_PROPS
    ensures PropsDictSize(p) < PropsDictSize(p + 1)
  {
    PropsDictSizeRange(p);
    PropsDictSizeRange(p + 1);
    var k := p / 2 + 11;
    if p % 2 == 1 {
      assert (p + 1) / 2 + 11 == k + 1;
      assert Pow2(k + 1) == 2 * Pow2(k);
    }
  }

  /** The size grows strictly with the properties byte, so different
      accepted bytes never encode the same size. */
  lemma {:induction false} PropsDictSizeIncreasing(p: byte, q: byte)
    requires p < q <= MAX_PROPS
    ensures PropsDictSize(p) < PropsDictSize(q)
    decreases q - p
  {
    PropsDictSizeStep(p);
    if p + 1 < q {
      PropsDictSizeIncreasing(p + 1, q);
    }
  }

  /** The static DEFAULT_DICT_SIZE, which starts at 0. */
  class Lzma2Defaults {
    var defaultDictSize: int

    constructor ()
      ensures defaultDictSize == 0
    {
      defaultDictSize := 0;
    }

    /** setDefaultDictSize: the default every later decoder sees. */
    method SetDefaultDictSize(dictSize: int)
      modifies this
      ensures defaultDictSize == dictSize
    {
      defaultDictSize := dictSize;
    }
  }

  /** An LZMA2Decoder and its dictSize. */
  class Lzma2Decoder {
    const dictSize: int

    constructor Init(dictSize: int)
      ensures this.dictSize == dictSize
    {
      this.dictSize := dictSize;
    }

    /** new LZMA2Decoder(props): the properties are checked, then the
        dictionary size taken from the default or from the byte. */
    static method New(defaults: Lzma2Defaults, props: seq<byte>) returns (r: Result<Lzma2Decoder, Exception>)
      ensures DictSize(props, defaults.defaultDictSize).Failure? ==>
        r == Failure(DictSize(props, defaults.defaultDictSize).error)
      ensures DictSize(props, defaults.defaultDictSize).Success? ==>
        r.Success? && fresh(r.value) && r.value.dictSize == DictSize(props, defaults.defaultDictSize).value
    {
      if |props| != 1 || props[0] > MAX_PROPS {
        return Failure(UnsupportedOptionsException(UNSUPPORTED_LZMA2));
      }
      var size;
      if defaults.defaultDictSize > 0 {
        size := defaults.defaultDictSize;
      } else {
        size := 2 + props[0] % 2;
        size := ShiftLeft(size, props[0] / 2 + 11);
      }
      var decoder := new Lzma2Decoder.Init(size);
      r := Success(decoder);
    }
  }
}
