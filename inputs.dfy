/**
 * How add-word.js settles the three field values: a flag supplies a field, and a
 * field the flags leave missing is asked for on the terminal and the answer trimmed.
 * The terminal itself is not modelled: the lines the user would type are parameters.
 */
module Inputs {
  import opened Wrappers
  import Flags

  /** The resolved field values handed to the insertion step. `jawi` may be absent. */
  datatype Values = Values(word: string, jawi: Option<string>, meaning: string)

  /** The lines the user would type at the prompts "Word: ", "Jawi (optional): " and
      "Meaning: "; a line is read only when its field is asked for. */
  datatype Answers = Answers(word: string, jawi: string, meaning: string)

  /** The characters `String.prototype.trim` removes: ECMAScript WhiteSpace
      (including the Unicode space separators) and LineTerminator. */
  predicate IsTrimSpace(c: char) {
    var n := c as int;
    n == 0x09 || n == 0x0A || n == 0x0B || n == 0x0C || n == 0x0D || n == 0x20 ||
    n == 0xA0 || n == 0x1680 || (0x2000 <= n <= 0x200A) || n == 0x2028 || n == 0x2029 ||
    n == 0x202F || n == 0x205F || n == 0x3000 || n == 0xFEFF
  }

  /** The string without its leading space characters. */
  function TrimStart(s: string): (r: string)
    ensures |r| <= |s| && r == s[|s| - |r|..]
    ensures forall k :: 0 <= k < |s| - |r| ==> IsTrimSpace(s[k])
    ensures r == "" || !IsTrimSpace(r[0])
  {
    if s != "" && IsTrimSpace(s[0]) then TrimStart(s[1..]) else s
  }

  /** The string without its trailing space characters. */
  function TrimEnd(s: string): (r: string)
    ensures |r| <= |s| && r == s[..|r|]
    ensures forall k :: |r| <= k < |s| ==> IsTrimSpace(s[k])
    ensures r == "" || !IsTrimSpace(r[|r| - 1])
  {
    if s != "" && IsTrimSpace(s[|s| - 1]) then TrimEnd(s[..|s| - 1]) else s
  }

  /** The string neither starts nor ends with a space character. */
  predicate Trimmed(s: string) {
    s == "" || (!IsTrimSpace(s[0]) && !IsTrimSpace(s[|s| - 1]))
  }

  /** `String.prototype.trim`: the result is a contiguous part of the input, every
      character cut off on either side is a space, and the result neither starts
      nor ends with one. */
  function Trim(s: string): (r: string)
    ensures exists a, b ::
              && 0 <= a <= b <= |s| && r == s[a..b]
              && (forall k :: 0 <= k < a ==> IsTrimSpace(s[k]))
              && (forall k :: b <= k < |s| ==> IsTrimSpace(s[k]))
    ensures Trimmed(r)
  {
    var t := TrimStart(s);
    var r := TrimEnd(t);
    TrimSlice(s, t, r);
    r
  }

  /** Cutting spaces off the front of `s` and then off the back leaves a slice of `s`
      with only spaces on either side of it. */
  lemma TrimSlice(s: string, t: string, r: string)
    requires |t| <= |s| && t == s[|s| - |t|..]
    requires forall k :: 0 <= k < |s| - |t| ==> IsTrimSpace(s[k])
    requires |r| <= |t| && r == t[..|r|]
    requires forall k :: |r| <= k < |t| ==> IsTrimSpace(t[k])
    ensures exists a, b ::
              && 0 <= a <= b <= |s| && r == s[a..b]
              && (forall k :: 0 <= k < a ==> IsTrimSpace(s[k]))
              && (forall k :: b <= k < |s| ==> IsTrimSpace(s[k]))
  {
    var a := |s| - |t|;
    var b := a + |r|;
    assert r == s[a..b];
    forall k | b <= k < |s|
      ensures IsTrimSpace(s[k])
    {
      assert s[k] == t[k - a];
    }
  }

  /** Every character of the string is a space character (the empty string included). */
  predicate AllSpace(s: string) {
    forall k :: 0 <= k < |s| ==> IsTrimSpace(s[k])
  }

  /** Trimming gives the empty string exactly when the input is made of spaces only. */
  lemma TrimEmpty(s: string)
    ensures Trim(s) == "" <==> AllSpace(s)
  {
  }

  /** A field is taken from the flags when its key holds a non-empty (truthy) string. */
  predicate Supplied(args: map<string, string>, key: string) {
    key in args && args[key] != ""
  }

  /**
   * `promptIfMissing`: `word` and `meaning` are asked for when the flags give no
   * non-empty value, `jawi` when the flags do not mention it at all. A value taken
   * from a flag is kept exactly as given; only typed answers are trimmed.
   */
  function Resolve(args: map<string, string>, answers: Answers): (v: Values)
    // every field is settled, so the entry's `jawi ?? ''` default never applies
    ensures v.jawi.Some?
    // a value from a flag is kept as given, surrounding spaces included
    ensures Supplied(args, "word") ==> v.word == args["word"]
    ensures "jawi" in args ==> v.jawi.value == args["jawi"]
    ensures Supplied(args, "meaning") ==> v.meaning == args["meaning"]
    // a typed value is the answer with its surrounding spaces cut off, so it has none
    // left, and a blank answer gives the empty string
    ensures !Supplied(args, "word") ==> v.word == Trim(answers.word)
    ensures "jawi" !in args ==> v.jawi.value == Trim(answers.jawi)
    ensures !Supplied(args, "meaning") ==> v.meaning == Trim(answers.meaning)
    ensures !Supplied(args, "word") ==> Trimmed(v.word) && (v.word == "" <==> AllSpace(answers.word))
    ensures "jawi" !in args ==> Trimmed(v.jawi.value) && (v.jawi.value == "" <==> AllSpace(answers.jawi))
    ensures !Supplied(args, "meaning") ==> Trimmed(v.meaning) && (v.meaning == "" <==> AllSpace(answers.meaning))
  {
    TrimEmpty(answers.word);
    TrimEmpty(answers.jawi);
    TrimEmpty(answers.meaning);
    Values(
      if Supplied(args, "word") then args["word"] else Trim(answers.word),
      Some(if "jawi" in args then args["jawi"] else Trim(answers.jawi)),
      if Supplied(args, "meaning") then args["meaning"] else Trim(answers.meaning))
  }

  /** A `--word` flag anywhere in the arguments settles the word without a prompt,
      and the word is then never empty, so the "word is required" check passes. */
  lemma WordFlagSkipsPrompt(argv: seq<string>, answers: Answers, j: nat)
    requires j < |argv| && argv[j] == "--word"
    ensures Supplied(Flags.Parsed(argv), "word")
    ensures Resolve(Flags.Parsed(argv), answers).word == Flags.Parsed(argv)["word"] != ""
  {
    assert Flags.SetsKey(argv[j]) && Flags.Key(argv[j]) == "word";
    Flags.ParsedKeys(argv, "word");
    Flags.ParsedValuesNonEmpty(argv);
  }

  /** `--jawi` followed by an empty argument stores the Jawi spelling "true": the
      empty argument is falsy, so the flag counts as having no value. */
  lemma EmptyJawiArgumentGivesTrue(argv: seq<string>, answers: Answers, j: nat)
    requires j + 1 < |argv| && argv[j] == "--jawi" && argv[j + 1] == ""
    requires forall l :: j < l < |argv| ==> argv[l] != "--jawi"
    ensures Resolve(Flags.Parsed(argv), answers).jawi == Some("true")
  {
    assert Flags.SetsKey(argv[j]) && Flags.Key(argv[j]) == "jawi";
    Flags.BareFlagIsTrue(argv, j);
  }
}
