/**
 * Recognisers for the Aztec.nr struct types that ABI encoders treat
 * specially: Ethereum and Aztec addresses and function selectors. Each one
 * asks whether the ABI type is a struct whose path ends with the struct's
 * fully qualified name.
 */
module AbiUtils {

  /**
   * An ABI type, reduced to what the recognisers read: its kind and, for a
   * struct, its path.
   */
  datatype AbiType = AbiType(kind: string, path: string)

  const EthAddressPath: string := "types::address::EthAddress"
  const AztecAddressPath: string := "types::address::AztecAddress"
  const FunctionSelectorPath: string := "types::abis::function_selector::FunctionSelector"

  /** String.prototype.endsWith: the last |suffix| characters of s are suffix. */
  function EndsWith(s: string, suffix: string): (b: bool)
    ensures b ==> |suffix| <= |s| && s[|s| - |suffix|..] == suffix
    ensures b <==> exists prefix :: s == prefix + suffix
  {
    TailIsSuffix(s, suffix);
    |suffix| <= |s| && s[|s| - |suffix|..] == suffix
  }

  /** The last |suffix| characters of s are suffix exactly when s is something followed by suffix. */
  lemma TailIsSuffix(s: string, suffix: string)
    ensures (|suffix| <= |s| && s[|s| - |suffix|..] == suffix) <==> exists prefix :: s == prefix + suffix
  {
    forall prefix | s == prefix + suffix
      ensures |suffix| <= |s| && s[|s| - |suffix|..] == suffix
    {
      assert s[|prefix|..] == suffix;
    }
    if |suffix| <= |s| && s[|s| - |suffix|..] == suffix {
      assert s == s[..|s| - |suffix|] + suffix;
    }
  }

  /** A struct type whose path ends with the given qualified name. */
  function IsStructAt(abiType: AbiType, name: string): (b: bool)
    ensures b <==> abiType.kind == "struct" && exists prefix :: abiType.path == prefix + name
  {
    abiType.kind == "struct" && EndsWith(abiType.path, name)
  }

  /** isEthAddressStruct */
  function IsEthAddressStruct(abiType: AbiType): (b: bool)
    ensures b <==> abiType.kind == "struct" && exists prefix :: abiType.path == prefix + EthAddressPath
  {
    IsStructAt(abiType, EthAddressPath)
  }

  /** isAztecAddressStruct */
  function IsAztecAddressStruct(abiType: AbiType): (b: bool)
    ensures b <==> abiType.kind == "struct" && exists prefix :: abiType.path == prefix + AztecAddressPath
  {
    IsStructAt(abiType, AztecAddressPath)
  }

  /** isAddressStruct: an Ethereum or an Aztec address. */
  function IsAddressStruct(abiType: AbiType): (b: bool)
    ensures b <==> (abiType.kind == "struct"
                    && ((exists prefix :: abiType.path == prefix + EthAddressPath)
                        || (exists prefix :: abiType.path == prefix + AztecAddressPath)))
  {
    IsEthAddressStruct(abiType) || IsAztecAddressStruct(abiType)
  }

  /** isFunctionSelectorStruct */
  function IsFunctionSelectorStruct(abiType: AbiType): (b: bool)
    ensures b <==> abiType.kind == "struct" && exists prefix :: abiType.path == prefix + FunctionSelectorPath
  {
    IsStructAt(abiType, FunctionSelectorPath)
  }

  // ----- properties -----

  /** No recogniser accepts a type whose kind is not struct. */
  lemma OnlyStructs(abiType: AbiType)
    requires abiType.kind != "struct"
    ensures !IsAddressStruct(abiType) && !IsFunctionSelectorStruct(abiType)
  {
  }

  /** Any module prefix in front of a recognised name is still recognised. */
  lemma PrefixedPathRecognised(prefix: string)
    ensures IsEthAddressStruct(AbiType("struct", prefix + EthAddressPath))
    ensures IsAztecAddressStruct(AbiType("struct", prefix + AztecAddressPath))
    ensures IsFunctionSelectorStruct(AbiType("struct", prefix + FunctionSelectorPath))
  {
  }

  /**
   * Two suffixes that differ at some position counted from their ends never
   * both end the same string.
   */
  lemma DistinctSuffixes(s: string, x: string, y: string, k: nat)
    requires k < |x| && k < |y| && x[|x| - 1 - k] != y[|y| - 1 - k]
    ensures !(EndsWith(s, x) && EndsWith(s, y))
  {
    EndsWithChar(s, x, k);
    EndsWithChar(s, y, k);
  }

  /** A string ending with suffix has suffix's k-th character from the end as its own. */
  lemma EndsWithChar(s: string, suffix: string, k: nat)
    requires k < |suffix|
    ensures EndsWith(s, suffix) ==> |suffix| <= |s| && s[|s| - 1 - k] == suffix[|suffix| - 1 - k]
  {
    if EndsWith(s, suffix) {
      assert s[|s| - |suffix|..][|suffix| - 1 - k] == s[|s| - 1 - k];
    }
  }

  /** No type is both an Ethereum address and an Aztec address. */
  lemma EthAndAztecExclusive(abiType: AbiType)
    ensures !(IsEthAddressStruct(abiType) && IsAztecAddressStruct(abiType))
  {
    // "...::EthAddress" and "...::AztecAddress" differ eight characters from the end: 'h' against 'c'
    assert EthAddressPath[|EthAddressPath| - 8] == 'h';
    assert AztecAddressPath[|AztecAddressPath| - 8] == 'c';
    DistinctSuffixes(abiType.path, EthAddressPath, AztecAddressPath, 7);
  }

  /** A function selector is never taken for an address. */
  lemma SelectorIsNotAddress(abiType: AbiType)
    ensures !(IsFunctionSelectorStruct(abiType) && IsAddressStruct(abiType))
  {
    // the last characters are 'r' in "FunctionSelector" and 's' in "...Address"
    assert FunctionSelectorPath[|FunctionSelectorPath| - 1] == 'r';
    assert EthAddressPath[|EthAddressPath| - 1] == 's';
    assert AztecAddressPath[|AztecAddressPath| - 1] == 's';
    DistinctSuffixes(abiType.path, FunctionSelectorPath, EthAddressPath, 0);
    DistinctSuffixes(abiType.path, FunctionSelectorPath, AztecAddressPath, 0);
  }
}
