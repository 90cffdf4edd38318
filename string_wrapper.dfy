/**
 * IdStringGeneratorWrapper (src/FlakeGen/IdStringGeneratorWrapper.cs): a
 * decorator that turns the `long` ids of a base generator into strings,
 * `prefix + converter(id)`, together with its predefined converters.
 *
 * The base generator is the cycling FakeIdGenerator of the wrapper's tests
 * (src/FlakeGen.Test/IdStringGeneratorWrapperTest.cs), the one
 * IIdGenerator<long> whose source is part of this model.
 */
module StringWrapper {
  import opened Common
  import opened Ordering
  import opened Encoder

  /** `Func<long, string>` */
  type Converter = int64 -> string

  // ---------------------------------------------------------------------------
  // The predefined converters

  const DecimalDigits: string := "0123456789"
  const UpperHexDigits: string := "0123456789ABCDEF"
  const LowerHexDigits: string := "0123456789abcdef"

  /**
   * `long.ToString()`: decimal digits, with a '-' in front of a negative
   * value and nowhere else.
   */
  function DecimalOf(id: int64): (r: string)
    ensures 1 <= |r|
    ensures r[0] == '-' <==> id < 0
    ensures forall i :: 0 <= i < |r| && (i > 0 || id >= 0) ==> r[i] in DecimalDigits
  {
    var magnitude := if id < 0 then -(id as int) else id as int;
    DigitsInAlphabet(magnitude, DecimalDigits);
    (if id < 0 then "-" + Digits(magnitude, DecimalDigits) else Digits(magnitude, DecimalDigits))
  }

  /**
   * `long.ToString("X")`: upper-case hexadecimal digits of the 64-bit two's
   * complement pattern; for a non-negative long, the digits of the value.
   */
  function UpperHexOf(id: int64): (r: string)
    ensures forall i :: 0 <= i < |r| ==> r[i] in UpperHexDigits
    ensures 0 <= id ==> r == Digits(id as int, UpperHexDigits)
  {
    var pattern := id % 0x1_0000_0000_0000_0000;
    DigitsInAlphabet(pattern, UpperHexDigits);
    assert 0 <= id ==> pattern == id as int by {
      if 0 <= id {
        DivModUnique(id as int, 0x1_0000_0000_0000_0000, 0, id as int);
      }
    }
    Digits(pattern, UpperHexDigits)
  }

  /** `Char.ToLowerInvariant` on the hexadecimal digits. */
  function LowerCase(c: char): char
  {
    if 'A' <= c <= 'F' then (c as int + 32) as char else c
  }

  /** `long.ToString("x")`: the digits of `ToString("X")`, in lower case. */
  function LowerHexOf(id: int64): (r: string)
    ensures |r| == |UpperHexOf(id)|
    ensures forall i :: 0 <= i < |r| ==> r[i] == LowerCase(UpperHexOf(id)[i])
    ensures 0 <= id ==> r == Digits(id as int, LowerHexDigits)
  {
    var pattern := id % 0x1_0000_0000_0000_0000;
    HexLowerCase(pattern);
    assert 0 <= id ==> pattern == id as int by {
      if 0 <= id {
        DivModUnique(id as int, 0x1_0000_0000_0000_0000, 0, id as int);
      }
    }
    Digits(pattern, LowerHexDigits)
  }

  lemma HexDigitCase(d: nat)
    requires d < 16
    ensures LowerHexDigits[d] == LowerCase(UpperHexDigits[d])
  {
  }

  /** In every position, the lower-case hexadecimal digits are the upper-case ones lowered. */
  lemma {:induction false} HexLowerCase(n: nat)
    ensures |Digits(n, LowerHexDigits)| == |Digits(n, UpperHexDigits)|
    ensures forall i :: 0 <= i < |Digits(n, LowerHexDigits)| ==>
      Digits(n, LowerHexDigits)[i] == LowerCase(Digits(n, UpperHexDigits)[i])
    decreases n
  {
    HexDigitCase(n % 16);
    if n >= 16 {
      HexLowerCase(n / 16);
    }
  }

  const Default: Converter := DecimalOf
  const UpperHex: Converter := UpperHexOf
  const LowerHex: Converter := LowerHexOf
  /** `Encoder.Encode32(id)`, through the function the Encode32 method is proved to compute. */
  const Base32: Converter := (id: int64) => Encoded(id, false)
  /** `Encoder.Encode32(id, true)` */
  const Base32LeadingZero: Converter := (id: int64) => Encoded(id, true)

  /** What each predefined converter computes, and how the Base32 results read back. */
  lemma PredefinedConverters(id: int64)
    ensures Default(id) == DecimalOf(id)
    ensures UpperHex(id) == UpperHexOf(id) && LowerHex(id) == LowerHexOf(id)
    ensures Base32(id) == Encoded(id, false) && Base32LeadingZero(id) == Encoded(id, true)
    ensures Value(Base32(id)) == Value(Base32LeadingZero(id)) == id % Pow32(Width)
  {
    EncodedValue(id, false);
    EncodedValue(id, true);
  }

  /** `string.IsNullOrEmpty(prefix) ? string.Empty : prefix` */
  function NormalizePrefix(prefix: Option<string>): (r: string)
    ensures prefix.None? ==> r == ""
    ensures prefix.Some? ==> r == prefix.value
  {
    if prefix.None? || prefix.value == "" then "" else prefix.value
  }

  // ---------------------------------------------------------------------------
  // The base generator of the tests

  /** The slot a call reads from: `index`, after going back to 0 at the end of the list. */
  function Slot(index: nat, n: nat): nat
  {
    if index == n then 0 else index
  }

  /** The value of `index` after `calls` calls on a fresh generator over n ids. */
  function IndexAfter(calls: nat, n: nat): nat
  {
    if calls == 0 then 0 else Slot(IndexAfter(calls - 1, n), n) + 1
  }

  /**
   * The generator cycles: call number `calls` (counting from 0) reads slot
   * `calls % n`, and `index` stays within 0..n.
   */
  lemma {:induction false} FakeCycles(calls: nat, n: nat)
    requires n > 0
    ensures IndexAfter(calls, n) <= n
    ensures Slot(IndexAfter(calls, n), n) == calls % n
  {
    if calls > 0 {
      FakeCycles(calls - 1, n);
      var r := (calls - 1) % n;
      assert calls - 1 == n * ((calls - 1) / n) + r;
      if r + 1 < n {
        DivModUnique(calls, n, (calls - 1) / n, r + 1);
      } else {
        assert n * ((calls - 1) / n) + n == n * ((calls - 1) / n + 1);
        DivModUnique(calls, n, (calls - 1) / n + 1, 0);
      }
    } else {
      DivModUnique(0, n, 0, 0);
    }
  }

  /**
   * FakeIdGenerator: hands out a fixed list of ids, starting over at the
   * front once the list is used up.
   */
  class FakeIdGenerator {
    const fakeIds: seq<int64>
    var index: nat
    /** The number of GenerateId calls so far. */
    ghost var calls: nat

    ghost predicate Valid()
      reads this
    {
      index <= |fakeIds| && index == IndexAfter(calls, |fakeIds|)
    }

    /** The constructor copies its `params long[]` argument. */
    constructor (fakeIds: seq<int64>)
      ensures this.fakeIds == fakeIds && index == 0 && calls == 0
      ensures Valid()
    {
      this.fakeIds := fakeIds;
      index := 0;
      calls := 0;
    }

    /**
     * Returns the id in the current slot and moves to the next one, so that
     * call number c (from 0) returns `fakeIds[c % |fakeIds|]`. An empty list
     * makes the C# code index outside the array, so it is excluded.
     */
    method GenerateId() returns (id: int64)
      requires Valid() && fakeIds != []
      modifies this
      ensures id == fakeIds[Slot(old(index), |fakeIds|)]
      ensures index == Slot(old(index), |fakeIds|) + 1
      ensures id == fakeIds[old(calls) % |fakeIds|] && calls == old(calls) + 1
      ensures Valid()
    {
      FakeCycles(calls, |fakeIds|);
      if index == |fakeIds| {
        index := 0;
      }
      id := fakeIds[index];
      index := index + 1;
      calls := calls + 1;
      FakeCycles(calls, |fakeIds|);
    }
  }

  // ---------------------------------------------------------------------------
  // The wrapper

  class IdStringGeneratorWrapper {
    const baseGenerator: FakeIdGenerator
    const converter: Converter
    const prefix: string

    /** The three-argument constructor once its null checks have passed. */
    constructor (baseGenerator: FakeIdGenerator, converter: Converter, prefix: Option<string>)
      ensures this.baseGenerator == baseGenerator && this.converter == converter
      ensures this.prefix == NormalizePrefix(prefix)
    {
      this.baseGenerator := baseGenerator;
      this.converter := converter;
      this.prefix := NormalizePrefix(prefix);
    }

    /**
     * The three-argument constructor with its checks: a null base generator
     * or a null converter throws ArgumentNullException naming it, the base
     * generator being checked first.
     */
    static method Create(baseGenerator: FakeIdGenerator?, converter: Option<Converter>, prefix: Option<string>)
      returns (r: Result<IdStringGeneratorWrapper>)
      ensures baseGenerator == null ==> r == Failure(ArgumentNull("baseGenerator"))
      ensures baseGenerator != null && converter.None? ==> r == Failure(ArgumentNull("converter"))
      ensures baseGenerator != null && converter.Some? ==>
        r.Success? && fresh(r.value) && r.value.baseGenerator == baseGenerator
        && r.value.converter == converter.value && r.value.prefix == NormalizePrefix(prefix)
    {
      if baseGenerator == null {
        return Failure(ArgumentNull("baseGenerator"));
      }
      if converter.None? {
        return Failure(ArgumentNull("converter"));
      }
      var w := new IdStringGeneratorWrapper(baseGenerator, converter.value, prefix);
      return Success(w);
    }

    /** The two-argument constructor: the Default converter. */
    static method CreateDefault(baseGenerator: FakeIdGenerator?, prefix: Option<string>)
      returns (r: Result<IdStringGeneratorWrapper>)
      ensures baseGenerator == null ==> r == Failure(ArgumentNull("baseGenerator"))
      ensures baseGenerator != null ==>
        r.Success? && fresh(r.value) && r.value.baseGenerator == baseGenerator
        && r.value.converter == Default && r.value.prefix == NormalizePrefix(prefix)
    {
      r := Create(baseGenerator, Some(Default), prefix);
    }

    /** Draws exactly one id from the base generator and returns it converted, after the prefix. */
    method GenerateId() returns (id: string)
      requires baseGenerator.Valid() && baseGenerator.fakeIds != []
      modifies baseGenerator
      ensures id == prefix + converter(baseGenerator.fakeIds[Slot(old(baseGenerator.index), |baseGenerator.fakeIds|)])
      ensures |prefix| <= |id| && id[..|prefix|] == prefix
      ensures baseGenerator.index == Slot(old(baseGenerator.index), |baseGenerator.fakeIds|) + 1
      ensures id == prefix + converter(baseGenerator.fakeIds[old(baseGenerator.calls) % |baseGenerator.fakeIds|])
      ensures baseGenerator.calls == old(baseGenerator.calls) + 1
      ensures baseGenerator.Valid()
    {
      var v := baseGenerator.GenerateId();
      id := prefix + converter(v);
    }
  }

  // ---------------------------------------------------------------------------
  // What the wrapper keeps of the ids' order and distinctness

  /** A common prefix does not change the ordinal order. */
  lemma PrefixKeepsOrder(prefix: string, x: string, y: string)
    ensures OrdinalLess(prefix + x, prefix + y) <==> OrdinalLess(x, y)
  {
    LexLessAppend(prefix, x, prefix, y, CharLess);
    LexLessIrreflexive(prefix, CharLess);
  }

  /** The strings the wrapper makes of a sequence of ids. */
  function Wrapped(prefix: string, converter: Converter, ids: seq<int64>): (r: seq<string>)
    ensures |r| == |ids|
    ensures forall i :: 0 <= i < |ids| ==> r[i] == prefix + converter(ids[i])
  {
    seq(|ids|, i requires 0 <= i < |ids| => prefix + converter(ids[i]))
  }

  /**
   * Distinct ids stay distinct under either Base32 converter, with any
   * prefix: the wrapped ids are unique in the sense of AssertUtil.AreUnique.
   */
  lemma Base32KeepsUnique(prefix: string, withLeadingZero: bool, ids: seq<int64>)
    requires forall i, j :: 0 <= i < j < |ids| ==> ids[i] != ids[j]
    ensures AreUnique(Wrapped(prefix, if withLeadingZero then Base32LeadingZero else Base32, ids))
  {
    var converter := if withLeadingZero then Base32LeadingZero else Base32;
    var r := Wrapped(prefix, converter, ids);
    forall i, j | 0 <= i < j < |r|
      ensures r[i] != r[j]
    {
      if r[i] == r[j] {
        assert Encoded(ids[i], withLeadingZero) == Encoded(ids[j], withLeadingZero) by {
          assert r[i][|prefix|..] == Encoded(ids[i], withLeadingZero);
          assert r[j][|prefix|..] == Encoded(ids[j], withLeadingZero);
        }
        EncodedInjective(ids[i], ids[j], withLeadingZero);
      }
    }
    PairwiseDistinctIsUnique(r);
  }

  /**
   * Increasing non-negative ids stay increasing under Base32LeadingZero, with
   * any prefix: the wrapped ids are sorted and unique in the sense of
   * AssertUtil.AreSorted and AreUnique, AreSorted taken with the ordinal
   * order (see OrdinalLess), not the culture order of the C# test.
   */
  lemma Base32LeadingZeroKeepsOrder(prefix: string, ids: seq<int64>)
    requires forall i :: 0 <= i < |ids| ==> 0 <= ids[i]
    requires forall i, j :: 0 <= i < j < |ids| ==> ids[i] < ids[j]
    ensures forall i, j :: 0 <= i < j < |ids| ==>
      OrdinalLess(Wrapped(prefix, Base32LeadingZero, ids)[i], Wrapped(prefix, Base32LeadingZero, ids)[j])
    ensures AreSorted(Wrapped(prefix, Base32LeadingZero, ids), OrdinalLess)
    ensures AreUnique(Wrapped(prefix, Base32LeadingZero, ids))
    ensures SortedCopy(Wrapped(prefix, Base32LeadingZero, ids), OrdinalLess) == Wrapped(prefix, Base32LeadingZero, ids)
  {
    var r := Wrapped(prefix, Base32LeadingZero, ids);
    forall i, j | 0 <= i < j < |ids|
      ensures OrdinalLess(r[i], r[j])
    {
      EncodedOrder(ids[i], ids[j]);
      PrefixKeepsOrder(prefix, Encoded(ids[i], true), Encoded(ids[j], true));
    }
    forall x: string
      ensures !OrdinalLess(x, x)
    {
      LexLessIrreflexive(x, CharLess);
    }
    forall x: string, y: string
      ensures OrdinalLess(x, y) ==> !OrdinalLess(y, x)
    {
      LexLessAsymmetric(x, y, CharLess);
    }
    IncreasingIsSortedAndUnique(r, OrdinalLess);
    SortedIsItsSortedCopy(r, OrdinalLess);
  }

  // ---------------------------------------------------------------------------
  // Worked examples of the decimal and hexadecimal converters

  /** The number a list of digit values spells, first digit most significant, up to position k. */
  function DigitsValue(ds: seq<nat>, k: nat, radix: nat): nat
    requires k <= |ds|
  {
    if k == 0 then 0 else DigitsValue(ds, k - 1, radix) * radix + ds[k - 1]
  }

  /** The characters a list of digit values stands for. */
  function Spell(ds: seq<nat>, alphabet: string): string
    requires forall i :: 0 <= i < |ds| ==> ds[i] < |alphabet|
  {
    seq(|ds|, i requires 0 <= i < |ds| => alphabet[ds[i]])
  }

  lemma {:induction false} DigitsValueLead(ds: seq<nat>, k: nat, radix: nat)
    requires 1 <= k <= |ds| && 1 <= ds[0] && 1 <= radix
    ensures 1 <= DigitsValue(ds, k, radix)
  {
    if k > 1 {
      DigitsValueLead(ds, k - 1, radix);
      MulAtLeast(DigitsValue(ds, k - 1, radix), radix);
    }
  }

  lemma SpellSnoc(ds: seq<nat>, k: nat, alphabet: string)
    requires 1 <= k <= |ds|
    requires forall i :: 0 <= i < |ds| ==> ds[i] < |alphabet|
    ensures Spell(ds[..k], alphabet) == Spell(ds[..k - 1], alphabet) + [alphabet[ds[k - 1]]]
  {
  }

  /** A digit list without a leading zero is exactly what Digits writes for its value. */
  lemma {:induction false} DigitsOfList(ds: seq<nat>, k: nat, alphabet: string)
    requires 2 <= |alphabet| && 1 <= k <= |ds| && 1 <= ds[0]
    requires forall i :: 0 <= i < |ds| ==> ds[i] < |alphabet|
    ensures Digits(DigitsValue(ds, k, |alphabet|), alphabet) == Spell(ds[..k], alphabet)
  {
    if k > 1 {
      DigitsOfList(ds, k - 1, alphabet);
      DigitsValueLead(ds, k - 1, |alphabet|);
      DigitsSnoc(DigitsValue(ds, k - 1, |alphabet|), ds[k - 1], alphabet);
      SpellSnoc(ds, k, alphabet);
    }
  }

  /** A digit list without a leading zero spells what Digits writes for its value. */
  lemma SpellDigits(n: nat, ds: seq<nat>, alphabet: string)
    requires 2 <= |alphabet| && 1 <= |ds| && 1 <= ds[0]
    requires forall i :: 0 <= i < |ds| ==> ds[i] < |alphabet|
    requires DigitsValue(ds, |ds|, |alphabet|) == n
    ensures Digits(n, alphabet) == Spell(ds, alphabet)
  {
    DigitsOfList(ds, |ds|, alphabet);
    assert ds[..|ds|] == ds;
  }

  lemma SpellPlain(ds: seq<nat>)
    requires ds == [5, 4, 1, 6, 9, 6, 9, 5, 8, 2, 9, 3, 6, 0, 6, 4]
    ensures Spell(ds, DecimalDigits) == "5416969582936064"
  {
  }

  lemma PlainDigits(n: nat)
    requires n == 5416969582936064
    ensures Digits(n, DecimalDigits) == "5416969582936064"
  {
    var ds: seq<nat> := [5, 4, 1, 6, 9, 6, 9, 5, 8, 2, 9, 3, 6, 0, 6, 4];
    assert DigitsValue(ds, 4, 10) == 5416;
    assert DigitsValue(ds, 8, 10) == 54169695;
    assert DigitsValue(ds, 12, 10) == 541696958293;
    assert DigitsValue(ds, 16, 10) == 5416969582936064;
    SpellDigits(n, ds, DecimalDigits);
    SpellPlain(ds);
  }

  lemma DecimalExample(id: int64)
    requires id == 5416969582936064
    ensures DecimalOf(id) == "5416969582936064"
  {
    PlainDigits(id as int);
  }


  lemma SpellPrefixed(ds: seq<nat>)
    requires ds == [5, 4, 1, 6, 9, 6, 9, 5, 8, 2, 9, 3, 6, 0, 0, 1]
    ensures Spell(ds, DecimalDigits) == "5416969582936001"
  {
  }

  lemma PrefixedIdDigits(n: nat)
    requires n == 5416969582936001
    ensures Digits(n, DecimalDigits) == "5416969582936001"
  {
    var ds: seq<nat> := [5, 4, 1, 6, 9, 6, 9, 5, 8, 2, 9, 3, 6, 0, 0, 1];
    assert DigitsValue(ds, 4, 10) == 5416;
    assert DigitsValue(ds, 8, 10) == 54169695;
    assert DigitsValue(ds, 12, 10) == 541696958293;
    assert DigitsValue(ds, 16, 10) == 5416969582936001;
    SpellDigits(n, ds, DecimalDigits);
    SpellPrefixed(ds);
  }

  lemma DecimalPrefixExample(id: int64)
    requires id == 5416969582936001
    ensures DecimalOf(id) == "5416969582936001"
  {
    PrefixedIdDigits(id as int);
  }


  lemma SpellUpper(ds: seq<nat>)
    requires ds == [7, 15, 2, 3, 15, 2, 2, 15, 15, 12, 13, 15, 15, 15, 15, 1]
    ensures Spell(ds, UpperHexDigits) == "7F23F22FFCDFFFF1"
  {
  }

  lemma UpperHexExample(id: int64)
    requires id == 0x7f23f22ffcdffff1
    ensures UpperHexOf(id) == "7F23F22FFCDFFFF1"
  {
    var ds: seq<nat> := [7, 15, 2, 3, 15, 2, 2, 15, 15, 12, 13, 15, 15, 15, 15, 1];
    assert DigitsValue(ds, 2, 16) == 0x7f;
    assert DigitsValue(ds, 4, 16) == 0x7f23;
    assert DigitsValue(ds, 6, 16) == 0x7f23f2;
    assert DigitsValue(ds, 8, 16) == 0x7f23f22f;
    assert DigitsValue(ds, 10, 16) == 0x7f23f22ffc;
    assert DigitsValue(ds, 12, 16) == 0x7f23f22ffcdf;
    assert DigitsValue(ds, 14, 16) == 0x7f23f22ffcdfff;
    assert DigitsValue(ds, 16, 16) == 0x7f23f22ffcdffff1;
    SpellDigits(id, ds, UpperHexDigits);
    SpellUpper(ds);
  }

  lemma SpellLower(ds: seq<nat>)
    requires ds == [7, 15, 2, 3, 15, 2, 2, 15, 15, 12, 13, 15, 15, 15, 12, 1]
    ensures Spell(ds, LowerHexDigits) == "7f23f22ffcdfffc1"
  {
  }

  lemma LowerHexExample(id: int64)
    requires id == 0x7f23f22ffcdfffc1
    ensures LowerHexOf(id) == "7f23f22ffcdfffc1"
  {
    var ds: seq<nat> := [7, 15, 2, 3, 15, 2, 2, 15, 15, 12, 13, 15, 15, 15, 12, 1];
    assert DigitsValue(ds, 2, 16) == 0x7f;
    assert DigitsValue(ds, 4, 16) == 0x7f23;
    assert DigitsValue(ds, 6, 16) == 0x7f23f2;
    assert DigitsValue(ds, 8, 16) == 0x7f23f22f;
    assert DigitsValue(ds, 10, 16) == 0x7f23f22ffc;
    assert DigitsValue(ds, 12, 16) == 0x7f23f22ffcdf;
    assert DigitsValue(ds, 14, 16) == 0x7f23f22ffcdfff;
    assert DigitsValue(ds, 16, 16) == 0x7f23f22ffcdfffc1;
    SpellDigits(id, ds, LowerHexDigits);
    SpellLower(ds);
  }

  // ---------------------------------------------------------------------------
  // The wrapper tests, call by call

  /** VerifyToStringDefaul: the default converter writes the decimal digits. */
  method VerifyToStringDefault() returns (id: string)
    ensures id == "5416969582936064"
  {
    var x: int64 := 5416969582936064;
    DecimalExample(x);
    var fake := new FakeIdGenerator([x]);
    var r := IdStringGeneratorWrapper.CreateDefault(fake, None);
    id := r.value.GenerateId();
  }

  /** VerifyToStringDefaulWithPrefix: the prefix comes before the digits. */
  method VerifyToStringDefaultWithPrefix() returns (id: string)
    ensures id == "x5416969582936001"
  {
    var x: int64 := 5416969582936001;
    var prefix := "x";
    DecimalPrefixExample(x);
    PrefixedDigits(prefix, DecimalOf(x));
    var fake := new FakeIdGenerator([x]);
    var r := IdStringGeneratorWrapper.CreateDefault(fake, Some(prefix));
    id := r.value.GenerateId();
  }

  lemma PrefixedDigits(prefix: string, digits: string)
    requires prefix == "x" && digits == "5416969582936001"
    ensures prefix + digits == "x5416969582936001"
  {
  }

  /** VerifyUpperHex. */
  method VerifyUpperHex() returns (id: string)
    ensures id == "7F23F22FFCDFFFF1"
  {
    var x: int64 := 0x7f23f22ffcdffff1;
    UpperHexExample(x);
    var fake := new FakeIdGenerator([x]);
    var r := IdStringGeneratorWrapper.Create(fake, Some(UpperHex), None);
    id := r.value.GenerateId();
  }

  /** VerifyLoweHex. */
  method VerifyLowerHex() returns (id: string)
    ensures id == "7f23f22ffcdfffc1"
  {
    var x: int64 := 0x7f23f22ffcdfffc1;
    LowerHexExample(x);
    var fake := new FakeIdGenerator([x]);
    var r := IdStringGeneratorWrapper.Create(fake, Some(LowerHex), None);
    id := r.value.GenerateId();
  }

  /**
   * As many wrapper calls as a fresh fake generator holds ids: each id comes
   * out once, in order, converted and after the prefix.
   */
  method WrapEach(values: seq<int64>, converter: Converter, prefix: Option<string>) returns (ids: seq<string>)
    requires values != []
    ensures |ids| == |values|
    ensures forall i :: 0 <= i < |values| ==> ids[i] == NormalizePrefix(prefix) + converter(values[i])
  {
    var fake := new FakeIdGenerator(values);
    var r := IdStringGeneratorWrapper.Create(fake, Some(converter), prefix);
    var generator := r.value;
    ids := [];
    for k := 0 to |values|
      invariant fake.Valid() && fake.calls == k && fake.fakeIds == values
      invariant generator.baseGenerator == fake && generator.converter == converter
      invariant generator.prefix == NormalizePrefix(prefix)
      invariant |ids| == k
      invariant forall i :: 0 <= i < k ==> ids[i] == NormalizePrefix(prefix) + converter(values[i])
    {
      DivModUnique(k, |values|, 0, k);
      var id := generator.GenerateId();
      ids := ids + [id];
    }
  }

  lemma Base32Expected(values: seq<int64>, ids: seq<string>)
    requires values == [0, 1, 10, 63, 64, 0x7FFF_FFFF_FFFF_FFFF]
    requires |ids| == 6 && forall i :: 0 <= i < 6 ==> ids[i] == "" + Base32(values[i])
    ensures ids[0] == "0" && ids[1] == "1" && ids[2] == "A"
    ensures ids[3] == "1V" && ids[4] == "20" && ids[5] == "7VVVVVVVVVVVV"
  {
    EncodedExamples(values);
  }

  lemma Base32LeadingZeroExpected(values: seq<int64>, ids: seq<string>)
    requires values == [0, 1, 10, 63, 64, 0x7FFF_FFFF_FFFF_FFFF]
    requires |ids| == 6 && forall i :: 0 <= i < 6 ==> ids[i] == "" + Base32LeadingZero(values[i])
    ensures ids[0] == "0000000000000" && ids[1] == "0000000000001" && ids[2] == "000000000000A"
    ensures ids[3] == "000000000001V" && ids[4] == "0000000000020" && ids[5] == "7VVVVVVVVVVVV"
  {
    EncodedExamples(values);
  }

  /** VerifyBase32: six calls, one per id. */
  method VerifyBase32() returns (ids: seq<string>)
    ensures |ids| == 6
    ensures ids[0] == "0" && ids[1] == "1" && ids[2] == "A"
    ensures ids[3] == "1V" && ids[4] == "20" && ids[5] == "7VVVVVVVVVVVV"
  {
    var values: seq<int64> := [0, 1, 10, 63, 64, 0x7FFF_FFFF_FFFF_FFFF];
    ids := WrapEach(values, Base32, None);
    Base32Expected(values, ids);
  }

  /** VerifyBase32WithLeadingZero: six calls, one per id. */
  method VerifyBase32WithLeadingZero() returns (ids: seq<string>)
    ensures |ids| == 6
    ensures ids[0] == "0000000000000" && ids[1] == "0000000000001" && ids[2] == "000000000000A"
    ensures ids[3] == "000000000001V" && ids[4] == "0000000000020" && ids[5] == "7VVVVVVVVVVVV"
  {
    var values: seq<int64> := [0, 1, 10, 63, 64, 0x7FFF_FFFF_FFFF_FFFF];
    ids := WrapEach(values, Base32LeadingZero, None);
    Base32LeadingZeroExpected(values, ids);
  }
}
