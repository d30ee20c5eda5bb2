/**
 * Dictionary records and the store invariant: a word is the key of a record,
 * and two keys clash when they are equal after lower-casing.
 */
module Words {

  /** One dictionary entry: the word, its Jawi spelling (possibly empty) and its meaning.
      A stored record is taken to have exactly these three string fields. */
  datatype Record = Record(word: string, jawi: string, meaning: string)

  /** Lower-casing of one character, restricted to the ASCII letters. */
  function LowerChar(c: char): char
  {
    if 'A' <= c <= 'Z' then (c as int + 32) as char else c
  }

  /** `String.prototype.toLowerCase`, character by character. */
  function Lower(s: string): string
  {
    seq(|s|, i requires 0 <= i < |s| => LowerChar(s[i]))
  }

  /** Two words name the same entry when they agree after lower-casing. */
  predicate SameWord(a: string, b: string) {
    Lower(a) == Lower(b)
  }

  /** The store invariant: no two records have words that are the same after lower-casing. */
  predicate UniqueWords(list: seq<Record>) {
    forall i, j :: 0 <= i < j < |list| ==> !SameWord(list[i].word, list[j].word)
  }
}
