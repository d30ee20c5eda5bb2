# AstakaAksara add-word: a verified model

`add-word.js` is a small command-line tool that appends one dictionary record
(a Malay word, its optional Jawi spelling and its meaning) to the JSON array kept
in `AstakaAksara.json`. It rejects a word that is already present in any letter
case. This project models the tool's logic in Dafny and proves what it promises:

- `wrappers.dfy`: `Option` and `Result`.
- `words.dfy`: the `Record` type, lower-casing, the clash relation between two words, and the
  store invariant that no two records' words clash.
- `flags.dfy`: `parseArgs`, as a loop over the argument list whose index a flag's value
  advances a second time. It is proved equal to `FlagsIn`, a fold over the flag tokens.
  Lemmas then give the closed-form behaviour: which keys appear, which value each key gets,
  that the last repeat wins, and when a flag gets `"true"`.
- `inputs.dfy`: the decision in `promptIfMissing` of which fields come from flags and which
  from typed answers, and `String.prototype.trim` over ECMAScript's whitespace set. The typed
  lines are parameters.
- `store.dfy`: the decision `loadJsonFile` takes once the file has been looked for and
  parsed. `saveJsonFile` is modelled as leaving a file that loads back to the same list.
- `add_word.dfy`: the body of `main` from the required-field checks to the save. This covers
  validation, the case-insensitive `find`, building the entry and `push`. It also holds a
  client that runs the step twice.

Details of the code that the model keeps:

- `promptIfMissing` trims only the answers typed at the prompts (add-word.js:36-42).
  A value that comes from a flag is kept exactly as given.
- `parseArgs` tests the next argument for truthiness (add-word.js:24). An empty argument
  is falsy, so a flag followed by one gets `"true"`, and `--jawi ""` stores the Jawi
  spelling `"true"`.
- `loadJsonFile` reads the file before its `try` (add-word.js:53-54). A read failure is
  reported with the read error's own message, not as a parse failure (`LoadError.ReadFailed`).
- `args[key] = val` on a plain object (add-word.js:25) ignores a string assigned to the key
  `__proto__`, so a `--__proto__` flag stores nothing.

## Model

| member | source | states |
|---|---|---|
| `Flags.ParseArgs` | add-word.js:17-29 | The loop's dictionary equals the left-to-right fold over flag tokens. The positions it examines are exactly those not taken as the value of the flag before them, so a consumed value is never re-scanned. |
| `Flags.ParsedKeys` | add-word.js:20-26 | A key is in the dictionary if and only if some `--key` token names it. Stray tokens add no key, and `__proto__` is never stored. |
| `Flags.LastOccurrenceWins` | add-word.js:20-26 | When a key is repeated, its value is the one its last flag token receives. |
| `Flags.FlagTakesNextToken` | add-word.js:22-25 | When it is the last flag for its key, a flag followed by a non-empty token that does not start with `--` maps its key to that token, and the token is consumed. An earlier flag with the same key is overwritten. |
| `Flags.BareFlagIsTrue` | add-word.js:24-25 | When it is the last flag for its key, a flag that is last in the arguments, or is followed by an empty token or another flag, maps its key to `"true"`. |
| `Flags.ParsedValuesNonEmpty` | add-word.js:24 | No value in the parsed dictionary is the empty string. |
| `Inputs.Trim` | add-word.js:36-42 | The result is a contiguous slice of the input. Everything cut off on either side is ECMAScript whitespace, and the result neither starts nor ends with whitespace. |
| `Inputs.TrimEmpty` | add-word.js:36-42 | A trimmed answer is empty exactly when the typed line consists of spaces only. |
| `Inputs.Resolve` | add-word.js:31-47 | Every field ends up settled, so `jawi` is always present and the `?? ''` default at line 93 never applies. A value from a flag is kept as given, spaces included. A field the flags leave missing is the typed answer, trimmed. It therefore has no surrounding spaces, and it is empty exactly when the answer was blank. |
| `Inputs.WordFlagSkipsPrompt` | add-word.js:35-37 | With a `--word` token anywhere in the arguments, the word is the flag's value and is never empty, so the "word is required" check cannot fail. |
| `Inputs.EmptyJawiArgumentGivesTrue` | add-word.js:22-40 | When it is the last `--jawi` in the arguments, `--jawi` followed by an empty argument resolves the Jawi spelling to `"true"`. |
| `Store.Load` | add-word.js:49-61 | An absent file loads as the empty list and a parsed array loads as itself. A non-array root fails with a parse error naming the file and "JSON root is not an array". A syntax error fails naming the file, and a read error fails with its own reason. |
| `Store.Save` | add-word.js:63-65 | Whatever file name is used, the saved file loads back to the same records in the same order. |
| `AddWord.FindDuplicate` | add-word.js:83-85 | Finds nothing if and only if no record's word clashes with the new word. Otherwise it returns the first clashing record. |
| `AddWord.Add` | add-word.js:72-102 | The checks run in order: empty word, then empty meaning (whatever the file holds), then a load failure, then a clash. A clash is reported with the first clashing record's spelling. Every error leaves the file unchanged. It adds a record if and only if all checks pass. The new list is the old list plus exactly one entry `{word, jawi or "", meaning}` at the end, and it is saved. Uniqueness of words is preserved. |
| `AddWord.AddTwice` | add-word.js:83-97 | After a successful add, a second run with the same word in any case is rejected with the first run's spelling, and the file stays as the first run wrote it. |

## Left out

- Terminal prompting through `readline/promises` (add-word.js:31-47) is asynchronous I/O. The lines a user would type are the `Answers` parameter, and only the choice of which fields are asked for is modelled.
- File system access (`existsSync`, `readFileSync`, `writeFileSync`) and the `ASTAKA_FILE` / working-directory path resolution are left out. The file name and the file's state are parameters.
- A failing `writeFileSync` is not modelled. The model's save always succeeds.
- `JSON.parse` and `JSON.stringify(arr, null, 2)`, including the text format, are left out. A file is described by what parsing it gives. Array elements are records with exactly the three string fields `word`, `jawi` and `meaning`. Extra fields, which `JSON.stringify` would write back, and missing `jawi` or `meaning` fields cannot be represented. Neither can the `String(e.word)` coercion of non-string or missing words.
- Words.Lower: lower-cases ASCII letters only, not the full Unicode mapping of `toLowerCase`. Strings are sequences of characters, not UTF-16 code units.
- `console` messages and `process.exit` codes are left out. A run ends in an `Outcome`: `Added` for the success message and exit 0, `Aborted` with the error for the error message and exit 1.
- `process.argv.slice(2)` is left out. `ParseArgs` receives the already-sliced argument list.
- JavaScript object keys that name other inherited properties are left out. Only the `__proto__` setter changes what the dictionary stores.
- The commented-out sort (add-word.js:99-100) is not active code. The model keeps insertion order.
