/**
 * The `if constexpr` serializer and calculator: a template that picks a
 * branch from the argument's type. Integral values become their bytes in
 * little-endian order; a `std::string` becomes a 4-byte little-endian length
 * followed by its characters; every other type is refused.
 */
module ConstexprIf {
  import opened Wrappers
  import opened CppInt

  newtype byte = x: int | 0 <= x < 256

  /**
   * The argument of the template, classified the way the branches see it:
   * an integral type of `size` bytes (`sizeof(T)`) holding `value`, a
   * `std::string`, or any other type.
   */
  datatype Arg = Integral(size: nat, value: int) | Text(s: string) | Other

  /**
   * Byte `i` of a two's-complement value, as an arithmetic right shift by
   * `8 * i` bits followed by a mask of the low 8 bits extracts it: the
   * base-256 digit that, put at weight 256^i on top of the `i` bytes below
   * it, gives the `i + 1` low bytes of `v`.
   */
  function ByteAt(v: int, i: nat): (b: byte)
    ensures v % Pow256(i + 1) == v % Pow256(i) + b as int * Pow256(i)
  {
    var d := (v / Pow256(i)) % 256;
    NextByteStep(v, Pow256(i), d, v % Pow256(i));
    d as byte
  }

  /** The `n` low bytes of `v`, least significant first, one appended per loop step. */
  function LittleEndian(v: int, n: nat): (bytes: seq<byte>)
    ensures |bytes| == n
    ensures forall i :: 0 <= i < n ==> bytes[i] == ByteAt(v, i)
  {
    if n == 0 then [] else LittleEndian(v, n - 1) + [ByteAt(v, n - 1)]
  }

  /** The number whose little-endian bytes are `bytes`: `Σ bytes[i] * 256^i`. */
  function FromLittleEndian(bytes: seq<byte>): nat {
    if |bytes| == 0 then 0
    else
      var init := bytes[..|bytes| - 1];
      FromLittleEndian(init) + bytes[|bytes| - 1] as nat * Pow256(|init|)
  }

  /** `n` bytes hold numbers below 256^n. */
  lemma {:induction false} FromLittleEndianBound(bytes: seq<byte>)
    ensures FromLittleEndian(bytes) < Pow256(|bytes|)
  {
    if |bytes| > 0 {
      var init := bytes[..|bytes| - 1];
      var b := bytes[|bytes| - 1];
      assert bytes == init + [b];
      FromLittleEndianBound(init);
      AppendByte(init, b);
      MulAtMost(b as nat, 255, Pow256(|init|));
    }
  }

  /** Adding byte `b` at weight `p` to `v % p` gives `v` modulo `256 * p`. */
  lemma NextByteStep(v: int, p: int, b: int, low: int)
    requires p > 0 && b == (v / p) % 256 && low == v % p
    ensures low + b * p == v % (256 * p)
  {
    DivDiv(v, p, 256);
    assert p * 256 == 256 * p;
    assert b * p == p * b;
  }

  /**
   * The little-endian bytes recover the value modulo 256^n, so they are the
   * two's-complement representation of `v` in `n` bytes.
   */
  lemma {:induction false} LittleEndianRoundTrip(v: int, n: nat)
    ensures FromLittleEndian(LittleEndian(v, n)) == v % Pow256(n)
  {
    if n > 0 {
      var init := LittleEndian(v, n - 1);
      var b := ByteAt(v, n - 1);
      assert LittleEndian(v, n) == init + [b];
      LittleEndianRoundTrip(v, n - 1);
      AppendByte(init, b);
    }
  }

  /** A byte appended to `init` counts at weight `256^|init|`. */
  lemma AppendByte(init: seq<byte>, b: byte)
    ensures FromLittleEndian(init + [b]) == FromLittleEndian(init) + b as nat * Pow256(|init|)
    ensures Pow256(|init| + 1) == 256 * Pow256(|init|)
  {
    assert (init + [b])[..|init|] == init;
  }

  /** The 4-byte length prefix of a string encoding. */
  const PrefixSize: nat := 4

  /** `static_cast<uint8_t>(c)`: the low byte of the character code. */
  function CharByte(c: char): (b: byte)
    ensures (c as int) < 256 ==> b as int == c as int
  {
    ((c as int) % 256) as byte
  }

  function CharBytes(s: string): (bytes: seq<byte>)
    ensures |bytes| == |s|
    ensures forall i :: 0 <= i < |s| ==> bytes[i] == CharByte(s[i])
  {
    if |s| == 0 then [] else [CharByte(s[0])] + CharBytes(s[1..])
  }

  /**
   * `serialize`: `None` stands for the `static_assert` that refuses any type
   * that is neither integral nor `std::string`.
   */
  function Serialize(x: Arg): (r: Option<seq<byte>>)
    ensures r.Some? <==> !x.Other?
    ensures x.Integral? ==> r.value == LittleEndian(x.value, x.size)
    ensures x.Text? ==> |r.value| == PrefixSize + |x.s|
    ensures x.Text? ==> r.value[..PrefixSize] == LittleEndian(|x.s|, PrefixSize)
    ensures x.Text? ==> r.value[PrefixSize..] == CharBytes(x.s)
  {
    match x
    case Integral(size, value) => Some(LittleEndian(value, size))
    case Text(s) => Some(LittleEndian(|s|, PrefixSize) + CharBytes(s))
    case Other => None
  }

  /** Reads back an integral value of `size` bytes from its encoding. */
  function DecodeUnsigned(bytes: seq<byte>): (v: nat)
    ensures v < Pow256(|bytes|)
  {
    FromLittleEndianBound(bytes);
    FromLittleEndian(bytes)
  }

  /** The characters of a byte sequence, one per byte. */
  function BytesToChars(bytes: seq<byte>): (s: string)
    ensures |s| == |bytes|
    ensures forall i :: 0 <= i < |s| ==> s[i] as int == bytes[i] as int
  {
    if |bytes| == 0 then [] else [bytes[0] as char] + BytesToChars(bytes[1..])
  }

  /**
   * The reader a `serialize`d string is meant for: a length prefix that must
   * match the number of bytes that follow, then the characters.
   */
  function DecodeText(bytes: seq<byte>): (r: Option<string>)
    ensures r.Some? ==> |bytes| == PrefixSize + |r.value|
  {
    if |bytes| < PrefixSize then None
    else if FromLittleEndian(bytes[..PrefixSize]) != |bytes| - PrefixSize then None
    else Some(BytesToChars(bytes[PrefixSize..]))
  }

  /** The length prefix is the string's size modulo 2^32. */
  lemma TextPrefix(s: string)
    ensures FromLittleEndian(Serialize(Text(s)).value[..PrefixSize]) == |s| % 0x1_0000_0000
  {
    LittleEndianRoundTrip(|s|, PrefixSize);
    assert Pow256(PrefixSize) == 0x1_0000_0000;
  }

  /**
   * A string shorter than 2^32 whose characters fit in a byte decodes back
   * to itself.
   */
  lemma TextRoundTrip(s: string)
    requires |s| < 0x1_0000_0000
    requires forall i :: 0 <= i < |s| ==> (s[i] as int) < 256
    ensures DecodeText(Serialize(Text(s)).value) == Some(s)
  {
    TextPrefix(s);
    DivModUnique(|s|, 0x1_0000_0000, 0, |s|);
    var bytes := Serialize(Text(s)).value;
    var t := BytesToChars(bytes[PrefixSize..]);
    assert forall i :: 0 <= i < |s| ==> t[i] == s[i] by {
      forall i | 0 <= i < |s| ensures t[i] == s[i] {
        assert t[i] as int == CharByte(s[i]) as int == s[i] as int;
      }
    }
    assert t == s;
  }

  /** An integral value inside its type's range is recovered from its bytes. */
  lemma IntegralRoundTrip(size: nat, value: int)
    requires 0 <= value < Pow256(size)
    ensures DecodeUnsigned(Serialize(Integral(size, value)).value) == value
  {
    var bytes := LittleEndian(value, size);
    assert Serialize(Integral(size, value)).value == bytes;
    LittleEndianRoundTrip(value, size);
    DivModUnique(value, Pow256(size), 0, value);
    assert DecodeUnsigned(bytes) == FromLittleEndian(bytes);
  }

  /** A negative value is recovered as its two's-complement reading. */
  lemma NegativeRoundTrip(size: nat, value: int)
    requires -(Pow256(size) as int) <= value < 0
    ensures DecodeUnsigned(Serialize(Integral(size, value)).value) == value + Pow256(size)
  {
    var bytes := LittleEndian(value, size);
    var m := Pow256(size);
    assert Serialize(Integral(size, value)).value == bytes;
    LittleEndianRoundTrip(value, size);
    assert value == -1 * m + (value + m);
    DivModUnique(value, m, -1, value + m);
    assert DecodeUnsigned(bytes) == FromLittleEndian(bytes);
  }

  /** `serialize(42)` for a 4-byte `int` and `serialize(std::string("Hi"))`. */
  lemma SerializeExamples()
    ensures Serialize(Integral(4, 42)) == Some([42, 0, 0, 0])
    ensures Serialize(Text("Hi")) == Some([2, 0, 0, 0, 72, 105])
    ensures Serialize(Text("test")).value[..PrefixSize] == [4, 0, 0, 0]
  {
    assert Pow256(1) == 256 && Pow256(2) == 65536 && Pow256(3) == 16777216;
    assert LittleEndian(42, 4) == [42, 0, 0, 0];
    assert LittleEndian(2, 4) == [2, 0, 0, 0];
    assert LittleEndian(4, 4) == [4, 0, 0, 0];
    assert CharBytes("Hi") == [72, 105];
    var hi: seq<byte> := [2, 0, 0, 0, 72, 105];
    assert LittleEndian(2, 4) + CharBytes("Hi") == hi;
  }

  /**
   * `calculate`: an integral argument is doubled; `None` again stands for
   * the `static_assert` on unsupported types.
   */
  function Calculate(x: Arg): (r: Option<int>)
    ensures r.Some? <==> x.Integral?
    ensures r.Some? ==> r.value % 2 == 0 && r.value / 2 == x.value
  {
    if x.Integral? then Some(x.value * 2) else None
  }
}
