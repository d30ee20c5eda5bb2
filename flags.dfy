/**
 * The command-line flag parser of add-word.js: `--key value` pairs become entries
 * of a dictionary, a flag without a usable value becomes the string "true".
 */
module Flags {

  /** A token that names a flag starts with two hyphens. */
  predicate IsFlag(t: string) {
    |t| >= 2 && t[..2] == "--"
  }

  /** The key a flag token names: the token without its leading hyphens. */
  function Key(t: string): string
    requires IsFlag(t)
  {
    t[2..]
  }

  /** A token that a preceding flag takes as its value: non-empty (a JavaScript
      truthy string) and not itself a flag. */
  predicate IsValue(t: string) {
    t != "" && !IsFlag(t)
  }

  /** The value a flag receives when no value follows it. */
  const BareFlagValue: string := "true"

  /** Assigning to this key of a plain JavaScript object sets its prototype, which
      ignores a string, so a flag with this key leaves the dictionary unchanged. */
  const ProtoKey: string := "__proto__"

  /** A flag token whose key is stored in the dictionary. */
  predicate SetsKey(t: string) {
    IsFlag(t) && Key(t) != ProtoKey
  }

  /** The value the flag at position j receives: the next token if that is a value, else "true". */
  function ValueAt(argv: seq<string>, j: nat): string
    requires j < |argv|
  {
    if j + 1 < |argv| && IsValue(argv[j + 1]) then argv[j + 1] else BareFlagValue
  }

  /** Position j holds the value of the flag just before it, so the scan skips it. */
  predicate Consumed(argv: seq<string>, j: nat)
    requires j < |argv|
  {
    0 < j && IsFlag(argv[j - 1]) && IsValue(argv[j])
  }

  /** Reference definition: the flags among the first n tokens, each storing its
      value in turn, so a later occurrence of a key overwrites an earlier one. */
  function FlagsIn(argv: seq<string>, n: nat): map<string, string>
    requires n <= |argv|
  {
    if n == 0 then map[]
    else
      var m := FlagsIn(argv, n - 1);
      if SetsKey(argv[n - 1]) then m[Key(argv[n - 1]) := ValueAt(argv, n - 1)] else m
  }

  /** The dictionary the whole argument list produces. */
  function Parsed(argv: seq<string>): map<string, string> {
    FlagsIn(argv, |argv|)
  }

  /**
   * `parseArgs`: walks the arguments with an index that a flag's value advances a
   * second time. The result is the reference dictionary, and the positions the loop
   * examined (`scanned`) are exactly those not taken as a flag's value.
   */
  method ParseArgs(argv: seq<string>) returns (args: map<string, string>, ghost scanned: set<nat>)
    ensures args == Parsed(argv)
    ensures forall j: nat :: j in scanned <==> j < |argv| && !Consumed(argv, j)
  {
    args := map[];
    scanned := {};
    var i := 0;
    while i < |argv|
      invariant 0 <= i <= |argv|
      invariant i < |argv| ==> !Consumed(argv, i)
      invariant args == FlagsIn(argv, i)
      invariant forall j: nat :: j in scanned <==> j < i && !Consumed(argv, j)
    {
      var a := argv[i];
      scanned := scanned + {i};
      if IsFlag(a) {
        var key := a[2..];
        var val;
        if i + 1 < |argv| && IsValue(argv[i + 1]) {
          i := i + 1;
          val := argv[i];
        } else {
          val := BareFlagValue;
        }
        if key != ProtoKey {
          args := args[key := val];
        }
      }
      i := i + 1;
    }
  }

  /** A key is in the dictionary exactly when some token among the first n is a
      flag storing that key. */
  lemma {:induction false} FlagsInKeys(argv: seq<string>, n: nat, k: string)
    requires n <= |argv|
    ensures k in FlagsIn(argv, n) <==> exists j :: 0 <= j < n && SetsKey(argv[j]) && Key(argv[j]) == k
  {
    if n > 0 {
      FlagsInKeys(argv, n - 1, k);
      if SetsKey(argv[n - 1]) && Key(argv[n - 1]) == k {
        assert k in FlagsIn(argv, n);
      }
    }
  }

  /** The last occurrence of a flag among the first n tokens decides its key's value. */
  lemma {:induction false} FlagsInLastWins(argv: seq<string>, n: nat, j: nat)
    requires j < n <= |argv|
    requires SetsKey(argv[j])
    requires forall l :: j < l < n ==> argv[l] != argv[j]
    ensures Key(argv[j]) in FlagsIn(argv, n)
    ensures FlagsIn(argv, n)[Key(argv[j])] == ValueAt(argv, j)
  {
    if j < n - 1 {
      FlagsInLastWins(argv, n - 1, j);
    }
  }

  /**
   * Stray tokens add nothing: a key is in the parsed dictionary if and only if
   * some `--key` token in the arguments names it (and it is not the prototype key).
   */
  lemma ParsedKeys(argv: seq<string>, k: string)
    ensures k in Parsed(argv) <==> exists j :: 0 <= j < |argv| && SetsKey(argv[j]) && Key(argv[j]) == k
    ensures ProtoKey !in Parsed(argv)
  {
    FlagsInKeys(argv, |argv|, k);
    FlagsInKeys(argv, |argv|, ProtoKey);
  }

  /** Repeated keys: the value of a key is the one its last flag token receives. */
  lemma LastOccurrenceWins(argv: seq<string>, j: nat)
    requires j < |argv| && SetsKey(argv[j])
    requires forall l :: j < l < |argv| ==> argv[l] != argv[j]
    ensures Key(argv[j]) in Parsed(argv)
    ensures Parsed(argv)[Key(argv[j])] == ValueAt(argv, j)
  {
    FlagsInLastWins(argv, |argv|, j);
  }

  /** A flag followed by a non-empty token that is not a flag takes that token as
      its value (and the scan of ParseArgs skips the token). */
  lemma FlagTakesNextToken(argv: seq<string>, j: nat)
    requires j + 1 < |argv| && SetsKey(argv[j])
    requires argv[j + 1] != "" && !IsFlag(argv[j + 1])
    requires forall l :: j < l < |argv| ==> argv[l] != argv[j]
    ensures Key(argv[j]) in Parsed(argv) && Parsed(argv)[Key(argv[j])] == argv[j + 1]
    ensures Consumed(argv, j + 1)
  {
    LastOccurrenceWins(argv, j);
  }

  /** A flag that is last, or is followed by an empty token or by another flag,
      receives the string "true". */
  lemma BareFlagIsTrue(argv: seq<string>, j: nat)
    requires j < |argv| && SetsKey(argv[j])
    requires j + 1 == |argv| || argv[j + 1] == "" || IsFlag(argv[j + 1])
    requires forall l :: j < l < |argv| ==> argv[l] != argv[j]
    ensures Key(argv[j]) in Parsed(argv) && Parsed(argv)[Key(argv[j])] == "true"
  {
    LastOccurrenceWins(argv, j);
  }

  /** Every value in the parsed dictionary is non-empty: it is either a value token or "true". */
  lemma {:induction false} FlagsInValuesNonEmpty(argv: seq<string>, n: nat)
    requires n <= |argv|
    ensures forall k :: k in FlagsIn(argv, n) ==> FlagsIn(argv, n)[k] != ""
  {
    if n > 0 {
      FlagsInValuesNonEmpty(argv, n - 1);
    }
  }

  /** The values of the dictionary `parseArgs` returns are never empty strings. */
  lemma ParsedValuesNonEmpty(argv: seq<string>)
    ensures forall k :: k in Parsed(argv) ==> Parsed(argv)[k] != ""
  {
    FlagsInValuesNonEmpty(argv, |argv|);
  }
}
