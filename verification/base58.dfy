/** The base-58 alphabet of Solana addresses and the validator that checks a
    pattern string against it (bt.py, `BASE58_ALPHABET` and
    `validate_base58_string`). */
module Base58 {
  import opened Wrappers

  /** The digits run of the alphabet: '1' to '9', without '0'. */
  const Digits: string := "123456789"
  /** The upper-case run: 'A' to 'Z' without 'I' and 'O'. */
  const UpperCase: string := "ABCDEFGHJKLMNPQRSTUVWXYZ"
  /** The lower-case run: 'a' to 'z' without 'l'. */
  const LowerCase: string := "abcdefghijkmnopqrstuvwxyz"

  /** `BASE58_ALPHABET`: the three runs in the order the source spells them,
      "123456789ABCDEFGHJKLMNPQRSTUVWXYZabcdefghijkmnopqrstuvwxyz". */
  const Alphabet: string := Digits + UpperCase + LowerCase

  /** Independent description of the alphabet by character ranges: the
      digits, letters and lower-case letters minus the four look-alikes
      '0', 'I', 'O' and 'l'. */
  predicate IsBase58Char(c: char) {
    || ('1' <= c <= '9')
    || ('A' <= c <= 'Z' && c != 'I' && c != 'O')
    || ('a' <= c <= 'z' && c != 'l')
  }

  /** No character occurs twice in `s`. */
  predicate Distinct(s: string) {
    forall i, j :: 0 <= i < j < |s| ==> s[i] != s[j]
  }

  /** Every pair of neighbours in `s` is in strictly increasing order. */
  predicate NeighboursAscend(s: string) {
    forall i :: 0 <= i < |s| - 1 ==> s[i] < s[i + 1]
  }

  /** Joining two ascending strings, the last of the first below the first
      of the second, gives an ascending string. */
  lemma ConcatAscends(a: string, b: string)
    requires NeighboursAscend(a) && NeighboursAscend(b)
    requires a != [] && b != [] && a[|a| - 1] < b[0]
    ensures NeighboursAscend(a + b)
  {
    var ab := a + b;
    forall i | 0 <= i < |ab| - 1
      ensures ab[i] < ab[i + 1]
    {
      if i + 1 < |a| {
        assert ab[i] == a[i] && ab[i + 1] == a[i + 1];
      } else if i + 1 == |a| {
        assert ab[i] == a[|a| - 1] && ab[i + 1] == b[0];
      } else {
        assert ab[i] == b[i - |a|] && ab[i + 1] == b[i - |a| + 1];
      }
    }
  }

  lemma DigitsAscend()
    ensures NeighboursAscend(Digits)
  {
  }

  lemma UpperCaseAscends()
    ensures NeighboursAscend(UpperCase)
  {
  }

  lemma LowerCaseAscends()
    ensures NeighboursAscend(LowerCase)
  {
  }

  lemma AlphabetNeighboursAscend()
    ensures NeighboursAscend(Alphabet)
  {
    DigitsAscend();
    UpperCaseAscends();
    LowerCaseAscends();
    ConcatAscends(Digits, UpperCase);
    ConcatAscends(Digits + UpperCase, LowerCase);
  }

  /** A string whose neighbours ascend is ordered throughout, so no
      character repeats. */
  lemma {:induction false} AscendingIsDistinct(s: string)
    requires NeighboursAscend(s)
    ensures forall i, j :: 0 <= i < j < |s| ==> s[i] < s[j]
    ensures Distinct(s)
  {
    if |s| > 1 {
      AscendingIsDistinct(s[1..]);
      forall i, j | 0 <= i < j < |s|
        ensures s[i] < s[j]
      {
        if i > 0 {
          assert s[1..][i - 1] < s[1..][j - 1];
        } else if j > 1 {
          assert s[1..][0] < s[1..][j - 1];
        }
      }
    }
  }

  lemma InDigitsIff(c: char)
    ensures c in Digits <==> '1' <= c <= '9'
  {
  }

  lemma InUpperCaseIff(c: char)
    ensures c in UpperCase <==> 'A' <= c <= 'Z' && c != 'I' && c != 'O'
  {
  }

  lemma InLowerCaseIff(c: char)
    ensures c in LowerCase <==> 'a' <= c <= 'z' && c != 'l'
  {
  }

  /** Membership in the alphabet agrees with the range description. */
  lemma InAlphabetIff(c: char)
    ensures c in Alphabet <==> IsBase58Char(c)
  {
    assert c in Alphabet <==> c in Digits || c in UpperCase || c in LowerCase;
    InDigitsIff(c);
    InUpperCaseIff(c);
    InLowerCaseIff(c);
  }

  /** The alphabet has 58 pairwise-distinct characters and omits the four
      visually ambiguous ones. */
  lemma AlphabetShape()
    ensures |Alphabet| == 58
    ensures Distinct(Alphabet)
    ensures '0' !in Alphabet && 'O' !in Alphabet && 'I' !in Alphabet && 'l' !in Alphabet
  {
    AlphabetNeighboursAscend();
    AscendingIsDistinct(Alphabet);
    InAlphabetIff('0');
    InAlphabetIff('O');
    InAlphabetIff('I');
    InAlphabetIff('l');
  }

  /** The `ValueError` raised by the validator: the offending character and
      its position in the scanned string. */
  datatype InvalidCharacter = InvalidCharacter(ch: char, index: nat)

  /** Every character of `s` belongs to `alphabet`. */
  predicate AllIn(alphabet: string, s: string) {
    forall k :: 0 <= k < |s| ==> s[k] in alphabet
  }

  /** Position `i` holds the leftmost character of `s` outside `alphabet`. */
  predicate IsFirstOutside(alphabet: string, s: string, i: int) {
    && 0 <= i < |s|
    && s[i] !in alphabet
    && forall k :: 0 <= k < i ==> s[k] in alphabet
  }

  /** Every character of `s` is a base-58 character. */
  predicate AllBase58(s: string) {
    AllIn(Alphabet, s)
  }

  /** Position `i` holds the leftmost non-base-58 character of `s`. */
  predicate IsFirstInvalid(s: string, i: int) {
    IsFirstOutside(Alphabet, s, i)
  }

  /** The validator's `for` loop over `alphabet`, resumed at position `i`:
      it stops at the first character outside `alphabet`. */
  function ScanFrom(alphabet: string, s: string, i: nat): (r: Outcome<InvalidCharacter>)
    requires i <= |s|
    ensures r.Pass? <==> forall k :: i <= k < |s| ==> s[k] in alphabet
    ensures r.Fail? ==>
      && i <= r.error.index < |s|
      && r.error.ch == s[r.error.index]
      && r.error.ch !in alphabet
      && forall k :: i <= k < r.error.index ==> s[k] in alphabet
    decreases |s| - i
  {
    if i == |s| then Pass
    else if s[i] !in alphabet then Fail(InvalidCharacter(s[i], i))
    else ScanFrom(alphabet, s, i + 1)
  }

  /** A scan from the start reports position `i` exactly when `i` is the
      leftmost character outside `alphabet`. */
  lemma ScanReportsFirstOutside(alphabet: string, s: string, i: int)
    ensures ScanFrom(alphabet, s, 0).Fail? && ScanFrom(alphabet, s, 0).error.index == i
            <==> IsFirstOutside(alphabet, s, i)
  {
    if IsFirstOutside(alphabet, s, i) {
      assert !AllIn(alphabet, s);
    }
  }

  /** The scan is left to right: on a concatenation, an offender in the
      front part wins; otherwise the verdict is that of the back part, with
      its position shifted by the length of the front. */
  lemma {:induction false} ScanConcat(alphabet: string, a: string, b: string)
    ensures ScanFrom(alphabet, a, 0).Fail? ==> ScanFrom(alphabet, a + b, 0) == ScanFrom(alphabet, a, 0)
    ensures ScanFrom(alphabet, a, 0).Pass? && ScanFrom(alphabet, b, 0).Pass? ==>
      ScanFrom(alphabet, a + b, 0).Pass?
    ensures ScanFrom(alphabet, a, 0).Pass? && ScanFrom(alphabet, b, 0).Fail? ==>
      var e := ScanFrom(alphabet, b, 0).error;
      ScanFrom(alphabet, a + b, 0) == Fail(InvalidCharacter(e.ch, |a| + e.index))
  {
    var ab := a + b;
    var ra := ScanFrom(alphabet, a, 0);
    var rb := ScanFrom(alphabet, b, 0);
    if ra.Fail? {
      var i := ra.error.index;
      assert IsFirstOutside(alphabet, ab, i) by {
        forall k | 0 <= k <= i ensures ab[k] == a[k] { }
      }
      ScanReportsFirstOutside(alphabet, ab, i);
    } else if rb.Pass? {
      forall k | 0 <= k < |ab| ensures ab[k] in alphabet {
        if k >= |a| {
          assert ab[k] == b[k - |a|];
        }
      }
    } else {
      var i := |a| + rb.error.index;
      assert IsFirstOutside(alphabet, ab, i) by {
        assert ab[i] == b[rb.error.index];
        forall k | 0 <= k < i ensures ab[k] in alphabet {
          if k >= |a| {
            assert ab[k] == b[k - |a|];
          }
        }
      }
      ScanReportsFirstOutside(alphabet, ab, i);
    }
  }

  /** `validate_base58_string`: passes exactly when every character is in
      the alphabet, and otherwise reports the leftmost offender. */
  function Validate(s: string): (r: Outcome<InvalidCharacter>)
    ensures r.Pass? <==> AllBase58(s)
    ensures r.Fail? ==> IsFirstInvalid(s, r.error.index) && r.error.ch == s[r.error.index]
  {
    ScanFrom(Alphabet, s, 0)
  }

  /** The empty pattern ("no constraint") is always accepted. */
  lemma ValidateEmpty()
    ensures Validate("") == Pass
  {
  }

  /** A rejection reports position `i` exactly when `i` is the leftmost
      character outside the alphabet. */
  lemma ValidateReportsFirstOffender(s: string, i: int)
    ensures Validate(s).Fail? && Validate(s).error.index == i <==> IsFirstInvalid(s, i)
  {
    ScanReportsFirstOutside(Alphabet, s, i);
  }

  /** Acceptance agrees with the range description of the alphabet. */
  lemma ValidateAgreesWithRanges(s: string)
    ensures Validate(s).Pass? <==> forall k :: 0 <= k < |s| ==> IsBase58Char(s[k])
  {
    forall k | 0 <= k < |s| {
      InAlphabetIff(s[k]);
    }
  }
}
