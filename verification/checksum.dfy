/** The directive checksum (`calc_hash`): a fold over the ordered key/value
    pairs of the heater record that adds every byte of an integer's 4-byte
    big-endian encoding and every character code of a string to an
    accumulator seeded with 181, reduced mod 256 at the end. The `SetTemp`
    value goes through `str()` first, so it is summed as text. */
module Codec {
  import opened Results
  import PyText

  /** The default initial `hash` of `calc_hash`. */
  const Seed := 181
  /** `int.to_bytes(4, 'big')` accepts exactly 0 .. Word - 1. */
  const Word := 0x1_0000_0000
  /** The one key whose value is summed as its decimal text. */
  const SetTempKey := "SetTemp"

  /** A value of the heater record: Python int, bool or str. */
  datatype Value = IntV(n: int) | BoolV(b: bool) | StrV(s: string)

  /** One entry of the heater record, in insertion order. */
  datatype Field = Field(key: string, value: Value)

  /** `str(v)`. */
  function PyStr(v: Value): string {
    match v
    case IntV(n) => PyText.Decimal(n)
    case BoolV(b) => if b then "True" else "False"
    case StrV(s) => s
  }

  /** The value `calc_hash` actually sums: `SetTemp` is replaced by `str(cv)`. */
  function Coerce(f: Field): Value {
    if f.key == SetTempKey then StrV(PyStr(f.value)) else f.value
  }

  /** `isinstance(v, int)`: a Python bool is an int too. */
  predicate IsPyInt(v: Value) {
    v.IntV? || v.BoolV?
  }

  /** The integer a Python int or bool stands for. */
  function PyInt(v: Value): int
    requires IsPyInt(v)
  {
    if v.IntV? then v.n else if v.b then 1 else 0
  }

  /** `n.to_bytes(4, 'big')`. */
  function BigEndian4(n: int): (bytes: seq<nat>)
    requires 0 <= n < Word
    ensures |bytes| == 4
    ensures forall i :: 0 <= i < 4 ==> bytes[i] < 256
  {
    [n / 0x100_0000, n / 0x1_0000 % 256, n / 0x100 % 256, n % 256]
  }

  /** `int.from_bytes(bytes, 'big')` for four bytes. */
  function FromBigEndian4(bytes: seq<nat>): int
    requires |bytes| == 4
  {
    ((bytes[0] * 256 + bytes[1]) * 256 + bytes[2]) * 256 + bytes[3]
  }

  /** The four bytes are the integer's base-256 digits: decoding gives it back. */
  lemma BigEndian4RoundTrip(n: int)
    requires 0 <= n < Word
    ensures FromBigEndian4(BigEndian4(n)) == n
  {
    var q1 := n / 0x100;
    var q2 := q1 / 0x100;
    var q3 := q2 / 0x100;
    assert n / 0x1_0000 == q2;
    assert n / 0x100_0000 == q3;
    assert q3 < 256;
  }

  /** The sum of `w(x)` over the elements `x` of `xs`, added left to right. */
  function SumBy<T>(xs: seq<T>, w: T -> nat): nat
    decreases |xs|
  {
    if |xs| == 0 then 0 else SumBy(xs[..|xs| - 1], w) + w(xs[|xs| - 1])
  }

  /** A byte adds its own value. */
  function ByteValue(x: nat): nat {
    x
  }

  /** A character adds its code point, `ord(c)`. */
  function Ord(c: char): nat {
    c as int
  }

  /** The sum of `ord(c)` over the characters of `s`. */
  function OrdSum(s: string): nat {
    SumBy(s, Ord)
  }

  /** What one field adds to the accumulator, or the OverflowError
      `to_bytes` raises for an integer outside 0 .. 2^32 - 1. */
  function Contribution(f: Field): Result<nat> {
    var v := Coerce(f);
    if IsPyInt(v) then
      if 0 <= PyInt(v) < Word then Ok(SumBy(BigEndian4(PyInt(v)), ByteValue)) else Err(OverflowError)
    else
      Ok(OrdSum(v.s))
  }

  predicate Encodable(f: Field) {
    Contribution(f).Ok?
  }

  predicate AllEncodable(fields: seq<Field>) {
    forall f :: f in fields ==> Encodable(f)
  }

  /** A field's contribution, 0 for one that cannot be encoded. */
  function Weight(f: Field): nat {
    if Encodable(f) then Contribution(f).value else 0
  }

  /** The sum of the contributions of all fields. */
  function TotalWeight(fields: seq<Field>): nat {
    SumBy(fields, Weight)
  }

  /** The checksum as a closed formula: (seed + sum of contributions) mod 256,
      or OverflowError when some field cannot be encoded. */
  function Checksum(fields: seq<Field>, seed: int): (r: Result<int>)
    ensures r.Ok? <==> AllEncodable(fields)
    ensures r.Ok? ==> 0 <= r.value < 256
  {
    if AllEncodable(fields) then Ok((seed + TotalWeight(fields)) % 256) else Err(OverflowError)
  }

  /** `calc_hash(heater, hash)`: the accumulation loop as written, field by
      field, byte by byte and character by character. It raises (returns
      OverflowError) at the first integer `to_bytes` rejects; otherwise its
      result is the closed formula, hence always a byte. */
  method CalcHash(heater: seq<Field>, seed: int) returns (r: Result<int>)
    ensures r == Checksum(heater, seed)
    ensures r.Ok? ==> 0 <= r.value < 256
  {
    var hash := seed;
    for i := 0 to |heater|
      invariant AllEncodable(heater[..i])
      invariant hash == seed + TotalWeight(heater[..i])
    {
      var cv := Coerce(heater[i]);
      var before := hash;
      if IsPyInt(cv) {
        var n := PyInt(cv);
        if !(0 <= n < Word) {
          assert heater[i] in heater && !Encodable(heater[i]);
          return Err(OverflowError);
        }
        var bytes: seq<nat> := BigEndian4(n);
        for j := 0 to 4
          invariant hash == before + SumBy<nat>(bytes[..j], ByteValue)
        {
          assert bytes[..j + 1][..j] == bytes[..j];
          hash := hash + bytes[j];
        }
        assert bytes[..4] == bytes;
      } else {
        var s := cv.s;
        for j := 0 to |s|
          invariant hash == before + SumBy(s[..j], Ord)
        {
          assert s[..j + 1][..j] == s[..j];
          hash := hash + s[j] as int;
        }
        assert s[..|s|] == s;
      }
      assert heater[..i + 1] == heater[..i] + [heater[i]];
    }
    assert heater[..|heater|] == heater;
    return Ok(hash % 256);
  }

  /** The sum added in the other direction, from index `from` to the end. */
  function SumFrom<T>(xs: seq<T>, from: nat, w: T -> nat): nat
    requires from <= |xs|
    decreases |xs| - from
  {
    if from == |xs| then 0 else w(xs[from]) + SumFrom(xs, from + 1, w)
  }

  lemma {:induction false} SumBySplit<T>(xs: seq<T>, k: nat, w: T -> nat)
    requires k <= |xs|
    ensures SumBy(xs[..k], w) + SumFrom(xs, k, w) == SumFrom(xs, 0, w)
    decreases k
  {
    if k > 0 {
      assert xs[..k][..k - 1] == xs[..k - 1];
      SumBySplit(xs, k - 1, w);
    } else {
      assert xs[..0] == [];
    }
  }

  /** One more element adds its weight. */
  lemma SumByPrefix<T>(xs: seq<T>, k: nat, w: T -> nat)
    requires 0 < k <= |xs|
    ensures SumBy(xs[..k], w) == SumBy(xs[..k - 1], w) + w(xs[k - 1])
  {
    assert xs[..k][..k - 1] == xs[..k - 1];
  }

  /** Adding left to right and right to left give the same sum. */
  lemma SumByFromFront<T>(xs: seq<T>, w: T -> nat)
    ensures SumBy(xs, w) == SumFrom(xs, 0, w)
  {
    SumBySplit(xs, |xs|, w);
    assert xs[..|xs|] == xs;
  }

  /** Taking one element out takes its weight out of the sum. */
  lemma {:induction false} SumByRemove<T>(b: seq<T>, i: nat, w: T -> nat)
    requires i < |b|
    ensures SumBy(b, w) == SumBy(b[..i] + b[i + 1..], w) + w(b[i])
    decreases |b|
  {
    var init := b[..|b| - 1];
    if i == |b| - 1 {
      assert b[..i] + b[i + 1..] == init;
    } else {
      var c := b[..i] + b[i + 1..];
      SumByRemove(init, i, w);
      assert c[..|c| - 1] == init[..i] + init[i + 1..];
      assert c[|c| - 1] == b[|b| - 1];
    }
  }

  /** Taking one element out of a sequence takes it out of its multiset. */
  lemma MultisetRemove<T>(b: seq<T>, i: nat)
    requires i < |b|
    ensures multiset(b[..i] + b[i + 1..]) == multiset(b) - multiset{b[i]}
  {
    assert b == b[..i] + [b[i]] + b[i + 1..];
  }

  /** A sum does not depend on the order of its terms. */
  lemma {:induction false} SumByPermutation<T>(a: seq<T>, b: seq<T>, w: T -> nat)
    requires multiset(a) == multiset(b)
    ensures SumBy(a, w) == SumBy(b, w)
    decreases |a|
  {
    if |a| == 0 {
      assert |b| == |multiset(b)| == 0;
    } else {
      var x := a[|a| - 1];
      assert x in multiset(b);
      var i :| 0 <= i < |b| && b[i] == x;
      MultisetRemove(a, |a| - 1);
      MultisetRemove(b, i);
      assert a[..|a| - 1] + a[|a|..] == a[..|a| - 1];
      SumByPermutation(a[..|a| - 1], b[..i] + b[i + 1..], w);
      SumByRemove(b, i, w);
    }
  }

  /** Reordering the heater record does not change its checksum: the fold
      only adds, and addition is commutative. */
  lemma ChecksumOrderFree(a: seq<Field>, b: seq<Field>, seed: int)
    requires multiset(a) == multiset(b)
    ensures Checksum(a, seed) == Checksum(b, seed)
  {
    forall f | f in a
      ensures f in b
    {
      assert f in multiset(a);
    }
    forall f | f in b
      ensures f in a
    {
      assert f in multiset(b);
    }
    SumByPermutation(a, b, Weight);
  }

  /** `SetTemp` is always summed as the characters of its decimal text, so it
      never overflows, whatever the integer. */
  lemma SetTempSummedAsText(n: int)
    ensures Contribution(Field(SetTempKey, IntV(n))) == Ok(OrdSum(PyText.Decimal(n)))
  {
  }

  /** The sum of four bytes. */
  lemma SumBytes4(xs: seq<nat>)
    requires |xs| == 4
    ensures SumBy(xs, ByteValue) == xs[0] + xs[1] + xs[2] + xs[3]
  {
    assert xs[..4 - 1] == xs[..3];
    assert xs[..3][..2] == xs[..2];
    assert xs[..2][..1] == xs[..1];
    assert xs[..1][..0] == [];
    assert SumBy(xs[..1], ByteValue) == xs[0];
    assert SumBy(xs[..2], ByteValue) == xs[0] + xs[1];
    assert SumBy(xs[..3], ByteValue) == xs[0] + xs[1] + xs[2];
  }

  /** 10 under `SetTemp` contributes ord('1') + ord('0') = 97, where 10 under
      any other key contributes its bytes 0 + 0 + 0 + 10 = 10. */
  lemma SetTempTenIs97()
    ensures Contribution(Field(SetTempKey, IntV(10))) == Ok(97)
    ensures Contribution(Field("CurrentTemp", IntV(10))) == Ok(10)
  {
    assert PyText.NatDecimal(1) == ['1'];
    assert PyText.Decimal(10) == ['1', '0'];
    assert ['1', '0'][..1] == ['1'];
    assert OrdSum(['1']) == 49 by {
      assert ['1'][..0] == [];
    }
    assert OrdSum(['1', '0']) == 97;
    assert BigEndian4(10) == [0, 0, 0, 10];
    SumBytes4([0, 0, 0, 10]);
  }

  /** A bool under any other key is summed as the int 1 or 0, so
      `IsOn = False` contributes four zero bytes. */
  lemma BoolSummedAsInt(key: string, b: bool)
    requires key != SetTempKey
    ensures Contribution(Field(key, BoolV(b))) == Contribution(Field(key, IntV(if b then 1 else 0)))
    ensures Contribution(Field(key, BoolV(b))) == Ok(if b then 1 else 0)
  {
    SumBytes4(BigEndian4(if b then 1 else 0));
  }
}
