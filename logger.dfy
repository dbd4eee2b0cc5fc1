/** `intArrayToString` of server/source/common/logger.ts: one UTF-16 code
    unit per array element, `String.fromCharCode` reducing each number
    modulo 2^16. The result is modelled as its code units, since a Dafny
    `char` cannot hold a lone surrogate. */
module Logger {
  newtype CodeUnit = x: int | 0 <= x < 0x1_0000

  /** `String.fromCharCode(n)` for an integer `n`: ToUint16, which for
      negative `n` wraps from the top, as Dafny's `%` does. */
  function FromCharCode(n: int): CodeUnit {
    (n % 0x1_0000) as CodeUnit
  }

  /** The string the loop builds, element by element. */
  function FromCharCodes(ints: seq<int>): seq<CodeUnit> {
    if |ints| == 0 then [] else FromCharCodes(ints[..|ints| - 1]) + [FromCharCode(ints[|ints| - 1])]
  }

  /** One code unit per element, each the element modulo 2^16, in index
      order; the empty array gives the empty string. */
  lemma {:induction false} FromCharCodesSpec(ints: seq<int>)
    ensures |FromCharCodes(ints)| == |ints|
    ensures forall i :: 0 <= i < |ints| ==> FromCharCodes(ints)[i] as int == ints[i] % 0x1_0000
  {
    if |ints| > 0 {
      FromCharCodesSpec(ints[..|ints| - 1]);
    }
  }

  /** Converting a concatenation is concatenating the conversions. */
  lemma {:induction false} FromCharCodesAppend(a: seq<int>, b: seq<int>)
    ensures FromCharCodes(a + b) == FromCharCodes(a) + FromCharCodes(b)
    decreases |b|
  {
    if |b| > 0 {
      var b' := b[..|b| - 1];
      assert (a + b)[..|a + b| - 1] == a + b';
      FromCharCodesAppend(a, b');
    } else {
      assert a + b == a;
    }
  }

  /** The loop of `intArrayToString`, over the array indices in order. */
  method IntArrayToString(ints: seq<int>) returns (str: seq<CodeUnit>)
    ensures str == FromCharCodes(ints)
    ensures |str| == |ints| && forall i :: 0 <= i < |ints| ==> str[i] as int == ints[i] % 0x1_0000
  {
    str := [];
    var i := 0;
    while i < |ints|
      invariant 0 <= i <= |ints|
      invariant str == FromCharCodes(ints[..i])
    {
      assert ints[..i + 1][..i] == ints[..i];
      str := str + [FromCharCode(ints[i])];
      i := i + 1;
    }
    assert ints[..i] == ints;
    FromCharCodesSpec(ints);
  }
}
