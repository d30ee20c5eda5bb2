/**
 * The insertion step of add-word.js: validate the two required fields, load the
 * store, reject a word that clashes with an existing one, and append the new record.
 */
module AddWord {
  import opened Wrappers
  import opened Words
  import opened Inputs
  import opened Store

  /** Why a run stops without writing the file. */
  datatype Error =
    | MissingField(field: string)
    | LoadFailed(cause: LoadError)
    | DuplicateWord(existing: string)

  /** The result of one run: the record added and the list written, or the error reported. */
  datatype Outcome = Added(entry: Record, list: seq<Record>) | Aborted(error: Error)

  /** Record i is the first one in the list whose word clashes with `word`. */
  predicate FirstClash(list: seq<Record>, word: string, i: int) {
    && 0 <= i < |list|
    && SameWord(list[i].word, word)
    && forall j :: 0 <= j < i ==> !SameWord(list[j].word, word)
  }

  /** `list.find(e => lower(e.word) === lower(word))`: the first clashing record, if any. */
  function FindDuplicate(list: seq<Record>, word: string): (r: Option<Record>)
    ensures r.None? <==> forall i :: 0 <= i < |list| ==> !SameWord(list[i].word, word)
    ensures r.Some? ==> exists i :: FirstClash(list, word, i) && list[i] == r.value
  {
    if list == [] then None
    else if SameWord(list[0].word, word) then
      assert FirstClash(list, word, 0);
      Some(list[0])
    else
      var r := FindDuplicate(list[1..], word);
      if r.Some? then
        var i :| FirstClash(list[1..], word, i) && list[1..][i] == r.value;
        assert FirstClash(list, word, i + 1);
        r
      else
        r
  }

  /** The record the run builds from the resolved values; an absent `jawi` becomes "". */
  function NewEntry(v: Values): Record {
    Record(v.word, v.jawi.GetOr(""), v.meaning)
  }

  /**
   * The body of `main` from the required-field checks to the final save. Checks
   * come in the source's order: an empty word, then an empty meaning (both before
   * the file is looked at), then a load failure, then a clash with an existing
   * word, reported with the first clashing record's own spelling. On any error
   * the file is left as it was. Otherwise exactly one record is appended at the
   * end, earlier records stay as they were and in order, the list is saved, and a
   * store whose words were unique still has unique words.
   */
  method Add(v: Values, file: string, before: FileState) returns (outcome: Outcome, after: FileState)
    ensures outcome.Aborted? ==> after == before
    ensures v.word == "" ==> outcome == Aborted(MissingField("word"))
    ensures v.word != "" && v.meaning == "" ==> outcome == Aborted(MissingField("meaning"))
    ensures v.word != "" && v.meaning != "" && Load(file, before).Failure? ==>
              outcome == Aborted(LoadFailed(Load(file, before).error))
    ensures forall i ::
              (&& v.word != "" && v.meaning != "" && Load(file, before).Success?
               && FirstClash(Load(file, before).value, v.word, i))
              ==> outcome == Aborted(DuplicateWord(Load(file, before).value[i].word))
    ensures outcome.Added? <==>
              && v.word != "" && v.meaning != "" && Load(file, before).Success?
              && forall i :: 0 <= i < |Load(file, before).value| ==>
                   !SameWord(Load(file, before).value[i].word, v.word)
    ensures outcome.Added? ==>
              && outcome.entry == Record(v.word, if v.jawi.Some? then v.jawi.value else "", v.meaning)
              && outcome.list == Load(file, before).value + [outcome.entry]
              && after == Save(outcome.list)
    ensures outcome.Added? && UniqueWords(Load(file, before).value) ==> UniqueWords(outcome.list)
  {
    if v.word == "" {
      return Aborted(MissingField("word")), before;
    }
    if v.meaning == "" {
      return Aborted(MissingField("meaning")), before;
    }
    var loaded := Load(file, before);
    if loaded.Failure? {
      return Aborted(LoadFailed(loaded.error)), before;
    }
    var list := loaded.value;
    var duplicate := FindDuplicate(list, v.word);
    if duplicate.Some? {
      return Aborted(DuplicateWord(duplicate.value.word)), before;
    }
    var entry := NewEntry(v);
    list := list + [entry];
    outcome, after := Added(entry, list), Save(list);
  }

  /**
   * Running the tool a second time with the same word in any letter case is
   * rejected: the clash is with the record the first run appended, the error
   * names that record's spelling, and the second run leaves the file as the first
   * run wrote it.
   */
  method AddTwice(v: Values, again: Values, file: string, before: FileState)
    returns (first: Outcome, second: Outcome, after: FileState)
    requires SameWord(v.word, again.word) && again.meaning != ""
    ensures first.Added? ==> second == Aborted(DuplicateWord(v.word))
    ensures first.Added? ==> after == Save(first.list)
  {
    var middle;
    first, middle := Add(v, file, before);
    second, after := Add(again, file, middle);
    if first.Added? {
      var list := first.list;
      assert Load(file, middle) == Success(list);
      assert |Lower(again.word)| == |Lower(v.word)|;
      assert FirstClash(list, again.word, |list| - 1);
    }
  }

  /** Two runs: adding "Rumah" to a missing file, and
      adding it again to a store that already holds "rumah". */
  method ExampleRuns() {
    var rumah := Values("Rumah", Some("رومه"), "house");
    var outcome, after := Add(rumah, "AstakaAksara.json", Absent);
    assert FindDuplicate([], "Rumah") == None;
    assert outcome == Added(Record("Rumah", "رومه", "house"), [Record("Rumah", "رومه", "house")]);

    var held := [Record("rumah", "", "home")];
    var stored := Save(held);
    assert Lower("rumah") == Lower("Rumah");
    assert FirstClash(held, "Rumah", 0);
    var outcome2, after2 := Add(Values("Rumah", None, "house"), "AstakaAksara.json", stored);
    assert outcome2 == Aborted(DuplicateWord("rumah")) && after2 == stored;
  }
}
