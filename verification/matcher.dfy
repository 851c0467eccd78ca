/** The vanity test of bt.py (`check_vanity`): does an encoded public key
    carry the wanted prefix and/or suffix? */
module Matcher {

  /** Python's `key.startswith(prefix)`: the key's leading characters are
      those of the prefix, position by position. */
  predicate StartsWith(key: string, prefix: string): (r: bool)
    ensures r <==> |prefix| <= |key| && forall i :: 0 <= i < |prefix| ==> key[i] == prefix[i]
  {
    |prefix| <= |key| && key[..|prefix|] == prefix
  }

  /** Python's `key.endswith(suffix)`: the key's trailing characters are
      those of the suffix, position by position. */
  predicate EndsWith(key: string, suffix: string): (r: bool)
    ensures r <==> |suffix| <= |key| && forall i :: 0 <= i < |suffix| ==> key[|key| - |suffix| + i] == suffix[i]
  {
    |suffix| <= |key| && key[|key| - |suffix|..] == suffix
  }

  /** `startswith` means the key is the prefix followed by something. */
  lemma StartsWithIff(key: string, prefix: string)
    ensures StartsWith(key, prefix) <==> exists rest :: key == prefix + rest
  {
    if StartsWith(key, prefix) {
      assert key == prefix + key[|prefix|..];
    }
    if exists rest :: key == prefix + rest {
      var rest :| key == prefix + rest;
      assert key[..|prefix|] == prefix;
    }
  }

  /** `endswith` means the key is something followed by the suffix. */
  lemma EndsWithIff(key: string, suffix: string)
    ensures EndsWith(key, suffix) <==> exists head :: key == head + suffix
  {
    if EndsWith(key, suffix) {
      assert key == key[..|key| - |suffix|] + suffix;
    }
    if exists head :: key == head + suffix {
      var head :| key == head + suffix;
      assert key[|head|..] == suffix;
    }
  }

  /** `check_vanity`: the key meets every non-empty constraint, and at least
      one constraint is non-empty (an empty pattern matches nothing). */
  function CheckVanity(key: string, prefix: string, suffix: string): (matched: bool)
    ensures matched <==>
      && (prefix != [] || suffix != [])
      && (prefix != [] ==> StartsWith(key, prefix))
      && (suffix != [] ==> EndsWith(key, suffix))
  {
    if prefix != [] && suffix != [] then
      StartsWith(key, prefix) && EndsWith(key, suffix)
    else if prefix != [] then
      StartsWith(key, prefix)
    else if suffix != [] then
      EndsWith(key, suffix)
    else
      false
  }

  /** With neither a prefix nor a suffix, no key is a vanity key. */
  lemma EmptyPatternNeverMatches(key: string)
    ensures !CheckVanity(key, "", "")
  {
  }

  /** Every non-empty pattern is met by some key: the prefix, anything, then
      the suffix. */
  lemma AssembledKeyMatches(prefix: string, middle: string, suffix: string)
    requires prefix != [] || suffix != []
    ensures CheckVanity(prefix + middle + suffix, prefix, suffix)
  {
    var key := prefix + middle + suffix;
    assert key == prefix + (middle + suffix);
    StartsWithIff(key, prefix);
    EndsWithIff(key, suffix);
  }
}
