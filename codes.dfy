/**
 * The code space of the game: `Array(min..max)`, the codes
 * `repeated_permutation` enumerates, and `all_possible_codes`, which
 * collects them into the computer's initial candidate set
 * (mastermind.rb:202-206).
 */
module Codes {
  import opened RubyArrays

  /** A guess or a code: a list of symbols. */
  type Code = seq<int>

  /** `Board::NUMBER_OPTIONS`: the six symbols. */
  const LowestNumber: int := 1
  const HighestNumber: int := 6
  const NumberOptions: seq<int> := Range(LowestNumber, HighestNumber)

  /** The length of every code in the game. */
  const CodeLength: nat := 4

  /** `Array(min..max)`: the integers from `min` to `max`, in increasing order. */
  function Range(min: int, max: int): (r: seq<int>)
    ensures |r| == if min <= max then max - min + 1 else 0
    ensures forall i :: 0 <= i < |r| ==> r[i] == min + i
    decreases max - min
  {
    if min > max then [] else [min] + Range(min + 1, max)
  }

  function Pow(b: nat, e: nat): nat
  {
    if e == 0 then 1 else b * Pow(b, e - 1)
  }

  /** Every code `[h] + t`, for `h` in `heads` (outer, in order) and `t` in `tails` (inner, in order). */
  function Extend(heads: seq<int>, tails: seq<Code>): seq<Code>
  {
    if heads == [] then []
    else seq(|tails|, i requires 0 <= i < |tails| => [heads[0]] + tails[i]) + Extend(heads[1..], tails)
  }

  /**
   * `syms.repeated_permutation(n)`: all length-`n` codes over `syms`, in the
   * order Ruby yields them (the first position varies slowest).
   */
  function AllCodes(syms: seq<int>, n: nat): seq<Code>
  {
    if n == 0 then [[]] else Extend(syms, AllCodes(syms, n - 1))
  }

  /** A code over the symbols `syms`, of length `n`. */
  predicate IsCode(syms: seq<int>, n: nat, c: Code)
  {
    |c| == n && forall i :: 0 <= i < |c| ==> c[i] in syms
  }

  /** Strict lexicographic order on codes. */
  predicate LexLess(a: Code, b: Code)
  {
    a != [] && b != [] && (a[0] < b[0] || (a[0] == b[0] && LexLess(a[1..], b[1..])))
  }

  predicate Increasing(s: seq<int>)
  {
    forall i, j :: 0 <= i < j < |s| ==> s[i] < s[j]
  }

  predicate LexSorted(s: seq<Code>)
  {
    forall i, j :: 0 <= i < j < |s| ==> LexLess(s[i], s[j])
  }

  // ---------------------------------------------------------------------------
  // Counting, membership and order of the enumeration
  // ---------------------------------------------------------------------------

  lemma {:induction false} ExtendLength(heads: seq<int>, tails: seq<Code>)
    ensures |Extend(heads, tails)| == |heads| * |tails|
  {
    if heads != [] {
      ExtendLength(heads[1..], tails);
    }
  }

  /** There are |syms|^n codes of length `n`. */
  lemma {:induction false} AllCodesLength(syms: seq<int>, n: nat)
    ensures |AllCodes(syms, n)| == Pow(|syms|, n)
  {
    if n > 0 {
      AllCodesLength(syms, n - 1);
      ExtendLength(syms, AllCodes(syms, n - 1));
    }
  }

  lemma {:induction false} ExtendMembers(heads: seq<int>, tails: seq<Code>, c: Code)
    ensures c in Extend(heads, tails) <==> c != [] && c[0] in heads && c[1..] in tails
  {
    if heads != [] {
      ExtendMembers(heads[1..], tails, c);
      var block := seq(|tails|, i requires 0 <= i < |tails| => [heads[0]] + tails[i]);
      if c != [] && c[0] == heads[0] && c[1..] in tails {
        var i :| 0 <= i < |tails| && tails[i] == c[1..];
        assert block[i] == c;
      }
      if c in block {
        var i :| 0 <= i < |block| && block[i] == c;
        assert c[1..] == tails[i];
      }
      assert c != [] && c[0] in heads ==> c[0] == heads[0] || c[0] in heads[1..];
    }
  }

  /** The enumeration holds exactly the codes of length `n` over `syms`. */
  lemma {:induction false} AllCodesMembers(syms: seq<int>, n: nat, c: Code)
    ensures c in AllCodes(syms, n) <==> IsCode(syms, n, c)
  {
    if n == 0 {
      assert c in AllCodes(syms, 0) <==> c == [];
    } else {
      ExtendMembers(syms, AllCodes(syms, n - 1), c);
      if c != [] {
        AllCodesMembers(syms, n - 1, c[1..]);
        assert forall i :: 1 <= i < |c| ==> c[i] == c[1..][i - 1];
        if IsCode(syms, n, c) {
          assert forall i :: 0 <= i < |c[1..]| ==> c[1..][i] == c[i + 1];
        }
      }
    }
  }

  lemma {:induction false} LexLessIrreflexive(a: Code)
    ensures !LexLess(a, a)
  {
    if a != [] {
      LexLessIrreflexive(a[1..]);
    }
  }

  /** Prefixing one symbol keeps the order of `tails`. */
  lemma {:induction false} PrefixSorted(h: int, tails: seq<Code>)
    requires LexSorted(tails)
    ensures LexSorted(seq(|tails|, i requires 0 <= i < |tails| => [h] + tails[i]))
  {
    var block := seq(|tails|, i requires 0 <= i < |tails| => [h] + tails[i]);
    forall i, j | 0 <= i < j < |block| ensures LexLess(block[i], block[j]) {
      assert block[i][1..] == tails[i] && block[j][1..] == tails[j];
    }
  }

  lemma {:induction false} ExtendHeads(heads: seq<int>, tails: seq<Code>, c: Code)
    requires c in Extend(heads, tails)
    ensures c != [] && c[0] in heads
  {
    ExtendMembers(heads, tails, c);
  }

  lemma {:induction false} SortedConcat(a: seq<Code>, b: seq<Code>)
    requires LexSorted(a) && LexSorted(b)
    requires forall x, y :: x in a && y in b ==> LexLess(x, y)
    ensures LexSorted(a + b)
  {
    forall i, j | 0 <= i < j < |a + b| ensures LexLess((a + b)[i], (a + b)[j]) {
      if j < |a| {
        assert (a + b)[i] == a[i] && (a + b)[j] == a[j];
      } else if i < |a| {
        assert (a + b)[i] in a && (a + b)[j] in b;
      } else {
        assert (a + b)[i] == b[i - |a|] && (a + b)[j] == b[j - |a|];
      }
    }
  }

  lemma {:induction false} ExtendSorted(heads: seq<int>, tails: seq<Code>)
    requires Increasing(heads) && LexSorted(tails)
    ensures LexSorted(Extend(heads, tails))
  {
    if heads != [] {
      var block := seq(|tails|, i requires 0 <= i < |tails| => [heads[0]] + tails[i]);
      var rest := Extend(heads[1..], tails);
      ExtendSorted(heads[1..], tails);
      PrefixSorted(heads[0], tails);
      forall x, y | x in block && y in rest ensures LexLess(x, y) {
        ExtendHeads(heads[1..], tails, y);
        var i :| 0 <= i < |block| && block[i] == x;
        var k :| 0 <= k < |heads[1..]| && heads[1..][k] == y[0];
        assert heads[k + 1] == y[0];
      }
      SortedConcat(block, rest);
    }
  }

  /**
   * Over increasing symbols the enumeration is strictly increasing in
   * lexicographic order, so it holds no code twice.
   */
  lemma {:induction false} AllCodesSorted(syms: seq<int>, n: nat)
    requires Increasing(syms)
    ensures LexSorted(AllCodes(syms, n))
    ensures forall i, j :: 0 <= i < j < |AllCodes(syms, n)| ==> AllCodes(syms, n)[i] != AllCodes(syms, n)[j]
  {
    if n > 0 {
      AllCodesSorted(syms, n - 1);
      ExtendSorted(syms, AllCodes(syms, n - 1));
    }
    forall i, j | 0 <= i < j < |AllCodes(syms, n)| ensures AllCodes(syms, n)[i] != AllCodes(syms, n)[j] {
      LexLessIrreflexive(AllCodes(syms, n)[i]);
    }
  }

  /**
   * The codes of length `n` over `min..max`: (max - min + 1)^n of them,
   * strictly increasing, starting with `min` repeated, and exactly the codes
   * of that length over those symbols.
   */
  lemma {:induction false} CodeSpace(min: int, max: int, n: nat)
    requires min <= max
    ensures |AllCodes(Range(min, max), n)| == Pow(max - min + 1, n)
    ensures LexSorted(AllCodes(Range(min, max), n))
    ensures AllCodes(Range(min, max), n) != [] && AllCodes(Range(min, max), n)[0] == seq(n, _ => min)
    ensures forall c :: c in AllCodes(Range(min, max), n) <==> IsCode(Range(min, max), n, c)
  {
    var syms := Range(min, max);
    AllCodesLength(syms, n);
    AllCodesSorted(syms, n);
    forall c ensures c in AllCodes(syms, n) <==> IsCode(syms, n, c) {
      AllCodesMembers(syms, n, c);
    }
    FirstCode(syms, n);
  }

  /** The game's code space: 1296 distinct codes of four symbols from 1 to 6, the first being 1-1-1-1. */
  lemma {:induction false} GameCodeSpace()
    ensures |AllCodes(NumberOptions, CodeLength)| == 1296
    ensures LexSorted(AllCodes(NumberOptions, CodeLength))
    ensures AllCodes(NumberOptions, CodeLength)[0] == [1, 1, 1, 1]
  {
    CodeSpace(LowestNumber, HighestNumber, CodeLength);
    assert Pow(6, 4) == 1296;
    var first := seq(4, _ => 1);
    assert first == [1, 1, 1, 1];
  }

  /** Every code of the game's code space has the game's length. */
  lemma {:induction false} GameCodeLengths()
    ensures forall x :: x in AllCodes(NumberOptions, CodeLength) ==> |x| == CodeLength
  {
    forall x | x in AllCodes(NumberOptions, CodeLength) ensures |x| == CodeLength {
      AllCodesMembers(NumberOptions, CodeLength, x);
    }
  }

  /** The first code of the enumeration repeats the first symbol. */
  lemma {:induction false} FirstCode(syms: seq<int>, n: nat)
    requires syms != []
    ensures AllCodes(syms, n) != [] && AllCodes(syms, n)[0] == seq(n, _ => syms[0])
  {
    if n > 0 {
      FirstCode(syms, n - 1);
      assert AllCodes(syms, n)[0] == [syms[0]] + AllCodes(syms, n - 1)[0];
    }
  }

  // ---------------------------------------------------------------------------
  // all_possible_codes
  // ---------------------------------------------------------------------------

  /** An element of the Ruby array `all_possible_codes` works on: a bare integer or a pushed permutation. */
  datatype Element = Number(n: int) | Permutation(p: Code)

  /**
   * `all_possible_codes(min, max, code_length)`: starts from the integers
   * `min..max`, pushes every repeated permutation of them after those
   * integers, and then removes (`-=`) every element equal to one of the
   * integers, leaving only the permutations, in the order they were pushed.
   */
  method AllPossibleCodes(min: int, max: int, codeLength: nat) returns (codes: seq<Code>)
    ensures codes == AllCodes(Range(min, max), codeLength)
    ensures min <= max ==> codes != []
    ensures forall i :: 0 <= i < |codes| ==> |codes[i]| == codeLength
  {
    var numbers := Range(min, max);
    var elements: seq<Element> := seq(|numbers|, i requires 0 <= i < |numbers| => Number(numbers[i]));
    var perms := AllCodes(numbers, codeLength);
    for k := 0 to |perms|
      invariant |elements| == |numbers| + k
      invariant forall i :: 0 <= i < |numbers| ==> elements[i] == Number(numbers[i])
      invariant forall i :: 0 <= i < k ==> elements[|numbers| + i] == Permutation(perms[i])
    {
      elements := elements + [Permutation(perms[k])];
    }
    var removed := seq(|numbers|, i requires 0 <= i < |numbers| => Number(numbers[i]));
    var kept: seq<Element> := [];
    for k := 0 to |elements|
      invariant k <= |numbers| ==> kept == []
      invariant k > |numbers| ==> kept == seq(k - |numbers|, i requires 0 <= i < k - |numbers| => Permutation(perms[i]))
    {
      if k < |numbers| {
        assert elements[k] == removed[k];
      } else {
        assert elements[k] == Permutation(perms[k - |numbers|]);
        assert forall e :: e in removed ==> e.Number?;
      }
      if elements[k] !in removed {
        kept := kept + [elements[k]];
      }
    }
    codes := seq(|kept|, i requires 0 <= i < |kept| => kept[i].p);
    if min <= max {
      FirstCode(numbers, codeLength);
    }
    forall i | 0 <= i < |codes| ensures |codes[i]| == codeLength {
      AllCodesMembers(numbers, codeLength, codes[i]);
    }
  }
}
