# Crisis in the Kremlin 2 save editor — a Dafny model of its core

`CitK2-Save-Editor.py` is a small tkinter program that edits the save files of
the game *Crisis in the Kremlin 2*. A save file is text holding one JSON
object, the blob. The editor:

- finds the blob with a greedy search for `({.*})`;
- when a file is opened, fills one entry per scalar game variable from the blob;
- when the file is saved, writes a `.bak` copy, coerces each non-blank entry with `int()` or `float()`, stores the result over the decoded blob, re-encodes the blob and puts it back in place with `str.replace`.

Every entry has a keystroke validator. It accepts blank text, a lone `-`, or text that the entry's conversion accepts.

This project models that core and proves properties about it. It has five modules:

- `Wrappers`: the `Option` type.
- `SaveText`: the document as prefix + blob + suffix. It covers the search (`Locate`, `Blob`), Python's `str.replace` (`Replace`) and the splice that replacement performs on save (`Splice`), with the round trips between them.
- `Numbers`: Python's `int()` and `float()` on entry text, and `str()` of an integer, as grammars over `seq<char>`.
- `Fields`: the variable table and the integer-variable set, the `Value`s a decoded blob holds, and the validators. It also defines:
  - `Inserted`, the text an entry shows after the program inserts into it;
  - `LoadedEntries`, how opening fills the entries;
  - `Coerce` and `Updated`, how saving writes the entries into the blob.

  The lemmas about load, save and their combination are here too.
- `Editor`: the class `SaveEditor`, holding the loaded file's path and the entries' texts. Its methods are `Edit` (one validated insert or delete), `OpenFile`, `SaveFile` and `ResetValues`. The loops over the variable table are in `PopulateEntries` (called by `OpenFile`), `ApplyEntries` (called by `SaveFile`) and `ResetValues`, as in the source.

The model has no I/O:

- A file's text is passed in as a parameter.
- `SaveFile` returns the files it writes as a list, in the order they are written: the backup first, then the new text.
- `json.loads` and `json.dumps` are function-typed parameters (`decode`, `encode`). Nothing is assumed about them, except that one round-trip lemma requires the encoder to produce braced text.
- The file dialog is modelled by the path it returns, with the empty path when the dialog is cancelled.
- Message boxes are modelled by the `Report` value an action ends with.

Tk runs the validator on every insert and delete of an entry with `validate="key"`, including the program's own. So when a file is opened, a value whose `str()` the validator rejects leaves its entry blank, and every entry always holds text its validator accepts (`AllValid`, part of `SaveEditor.Valid`).

Opening a file clears and refills only the entries whose variable the new blob holds. An entry the new blob lacks keeps the text it had, from an earlier file or from editing, and the next save writes that text into the new file (`StaleEntrySaved`, `StaleDefconExample`). So opening then saving reproduces the blob only when those entries were blank (`SaveAfterLoadKeepsData`).

## Model

| member | source | states |
|---|---|---|
| SaveText.Locate | CitK2-Save-Editor.py:254 | A match found is the greedy `({.*})` span: it starts at the first `{` of the text, ends just after the last `}`, that `}` comes after the `{`, no `{` precedes it and no `}` follows it |
| SaveText.LocateFindsBracePair | CitK2-Save-Editor.py:254-257 | The search succeeds exactly when some `{` occurs before some `}` in the text (both directions) |
| SaveText.LocateIsBlobSpan | CitK2-Save-Editor.py:292 | The matched span is unique: any span with the greedy-match properties is the one the search returns |
| SaveText.Blob | CitK2-Save-Editor.py:259 | `match.group(1)` exists exactly when the search succeeds, and it opens with `{` and closes with `}` |
| SaveText.ReplaceBlob | CitK2-Save-Editor.py:311 | `str.replace` (every non-overlapping occurrence, left to right) of the located blob rewrites only the blob span: the result is prefix + new text + suffix |
| SaveText.SpliceIsReplace | CitK2-Save-Editor.py:310-311 | `content.replace(match.group(1), new_json)` equals the splice: the old prefix, the new blob, the old suffix; the splice exists exactly when the blob does |
| SaveText.SpliceThenLocate | CitK2-Save-Editor.py:292-311 | Round trip: after a braced blob is spliced in, a new search finds exactly that blob at the old start, with the prefix and suffix unchanged |
| SaveText.SpliceSameBlob | CitK2-Save-Editor.py:311 | Splicing the blob that is already there gives the text back unchanged |
| Numbers.ParseIntShow | CitK2-Save-Editor.py:264-305 | `int(str(n)) == n` for every integer of at most 4300 digits; for a longer one `int()` refuses the text |
| Numbers.ParseIntWithinLimit | CitK2-Save-Editor.py:226-234 | Every integer `int()` returns has at most 4300 digits, so its `str()` reads back |
| Numbers.IntTextIsFloatText | CitK2-Save-Editor.py:221-231 | Every text in `int()`'s grammar, of any length, is accepted by `float()` as well |
| Numbers.SeparatorsAreNotStripped | CitK2-Save-Editor.py:216-234 | The conversions do not strip the separators U+001C to U+001F: every text that starts with one is refused by both `int()` and `float()` |
| Numbers.BareSignIsNotANumber | CitK2-Save-Editor.py:218-229 | The empty text, `-` and `+` parse neither as an integer nor as a float, so the validators accept `""` and `"-"` only through their explicit first test |
| Fields.TablesAgree | CitK2-Save-Editor.py:16-68 | The variable table has 45 names; `warheadsQuantity` is a float variable of the table, and the legacy key `warheadQuantity` is not in it |
| Fields.IntVarsAreVariables | CitK2-Save-Editor.py:65-68 | Every integer variable is one of the editor's variables |
| Fields.Inserted | CitK2-Save-Editor.py:265-266 | An insert into a blank entry leaves either the inserted text or blank, and in both cases text the entry's validator accepts |
| Fields.Coerce | CitK2-Save-Editor.py:304-307 | A text the save loop can store is one its validator accepts, is neither blank nor a lone `-`, and gives a value of the variable's kind: an integer of at most 4300 digits for an integer variable, a float otherwise |
| Fields.ValidatorMatchesCoerce | CitK2-Save-Editor.py:216-234 | A validator accepts exactly blank text, a lone `-`, and the text the save-time conversion can store; the lone `-` passes the validator and still fails the conversion |
| Fields.WritableUnlessDash | CitK2-Save-Editor.py:299-307 | With every entry accepted by its validator, the save loop runs to its end exactly when no entry holds a lone `-` |
| Fields.UpdatedKeepsUntouched | CitK2-Save-Editor.py:299-302 | Partial update: a blank entry, and any key that is not an entry, keeps its presence and its value in the blob |
| Fields.UpdatedWritesEntry | CitK2-Save-Editor.py:304-307 | Typed write: a non-blank entry is stored under its own name, as `int(text)` for an integer variable and `float(text)` for any other |
| Fields.UpdatedKeys | CitK2-Save-Editor.py:299-307 | Saving removes no key: the blob's keys become the old keys plus the names of the non-blank entries |
| Fields.VisitedStep | CitK2-Save-Editor.py:299-307 | One step of the save loop: a blank entry changes nothing, a coercible one stores its value, and any other one makes the whole save fail |
| Fields.UpdatedAddEntry | CitK2-Save-Editor.py:304-307 | Writing one more entry stores its coerced value and leaves the rest of the update as it was |
| Fields.LoadedOnStep | CitK2-Save-Editor.py:263-270 | One step of the opening loop refills the entry of one variable from its current text and changes no other entry |
| Fields.LoadPopulates | CitK2-Save-Editor.py:263-270 | Opening fills each entry whose variable the blob holds with the value's `str()`, or leaves it blank when the validator rejects that; `warheadsQuantity` falls back on `warheadQuantity`; every other entry keeps its text |
| Fields.LoadKeepsValid | CitK2-Save-Editor.py:263-270 | After opening, every entry still holds text its validator accepts |
| Fields.CoerceShown | CitK2-Save-Editor.py:266-307 | A value that suits its variable's kind passes through `str()`, the validator and the save-time conversion unchanged |
| Fields.IntUnderFloatVariable | CitK2-Save-Editor.py:266-307 | An integer stored under a float variable is shown as its decimal text and stored back as `float` of that text |
| Fields.SaveAfterLoadKeepsData | CitK2-Save-Editor.py:263-307 | Opening and then saving stores every value back as it was, provided each entry the blob lacks was blank, each value suits its kind or is one its validator keeps out of the entry, and the legacy warhead key is not the only warhead key present |
| Fields.StaleEntrySaved | CitK2-Save-Editor.py:263-307 | Opening does not clear an entry whose variable the blob lacks; saving then writes that entry's old text into the blob, so the saved blob differs from the one opened |
| Fields.StaleDefconExample | CitK2-Save-Editor.py:263-307 | With `defcon` left at `5` and an empty blob opened, saving writes `{"defcon": 5}` |
| Fields.SaveAfterLoadCopiesLegacyWarheads | CitK2-Save-Editor.py:268-307 | With only the legacy warhead key present, opening then saving adds the count under `warheadsQuantity` and leaves `warheadQuantity` as it was |
| Fields.SaveKeepsLegacyKey | CitK2-Save-Editor.py:299-307 | The entries are keyed by the variable table, so saving never changes the legacy key `warheadQuantity` |
| Editor.SaveEditor.constructor | CitK2-Save-Editor.py:115-146 | A new editor has one blank entry per variable of the table and no file loaded |
| Editor.SaveEditor.Edit | CitK2-Save-Editor.py:148-154 | One validated insert or delete changes the entry to the proposed text exactly when its validator accepts that text; otherwise nothing changes. A keystroke over a selection, or a paste, is a delete then an insert, so two calls |
| Editor.SaveEditor.OpenFile | CitK2-Save-Editor.py:236-274 | A cancelled dialog, a text without a blob, or a blob that does not decode each end the action with its own report and change nothing; otherwise the file becomes the loaded one and the entries are refilled as `LoadedEntries` says |
| Editor.SaveEditor.PopulateEntries | CitK2-Save-Editor.py:262-270 | The opening loop leaves the entries equal to `LoadedEntries` of the old entries and changes nothing else |
| Editor.SaveEditor.SaveFile | CitK2-Save-Editor.py:276-319 | Reports "no file loaded" (writing nothing) exactly when no file is loaded; otherwise the backup is written first; a missing blob, a failed decode or an entry holding a lone `-` ends with only the backup written; otherwise the file receives the text with its blob replaced by the encoding of `Updated` |
| Editor.SaveEditor.ApplyEntries | CitK2-Save-Editor.py:299-307 | The save loop fails exactly when some non-blank entry cannot be coerced; otherwise it returns `Updated` of the blob and the entries |
| Editor.SaveEditor.ResetValues | CitK2-Save-Editor.py:321-324 | Every entry is blank afterwards, the same entries exist, and the loaded file stays loaded |

## Left out

- The tkinter window, its styles, labels, scrolling canvas, column layout and buttons are not modelled. Only the entries' texts and validators are state here.
- The display names of the variable table are left out: they are only label text.
- The saved-games directory (from `USERPROFILE`) and the fallback to the home directory are left out. They only choose where the open dialog starts.
- Editor.SaveEditor.constructor: always succeeds. In the source, `os.environ['USERPROFILE']` raises `KeyError` when the variable is unset, so no editor is built; that failure is not modelled.
- The dialog itself is left out. Its result is the `path` parameter of `OpenFile`.
- Reading files is not modelled: the text read is a parameter.
- File contents are modelled as decoded text, not bytes. The source reads and writes in text mode with UTF-8, so line endings are translated and a file that is not UTF-8 raises on reading, while `shutil.copyfile` copies the bytes. So `FileWrite(BackupPath(path), content)` and the unchanged prefix and suffix of the saved text hold of the text, not of the bytes on disk: a CRLF save file rewritten on Linux loses its carriage returns outside the blob.
- Errors raised by file I/O are not modelled: a missing file, a failed read, a failed backup copy or a failed write.
- The atomicity of the backup-then-write sequence is not modelled. Writes are returned in order as `FileWrite` values.
- `json.loads` and `json.dumps` are parameters: JSON syntax, key order and number formatting are not modelled. A decoded float is identified by the text `str()` gives for it, so `1.5` and `1.50` are different values here.
- Numbers.ParseInt: does not accept `_` digit separators or non-ASCII digits, which Python's `int()` accepts. It does model the 4300-digit limit of CPython 3.11 and later (and the 3.7–3.10 security releases), beyond which `int()` raises `ValueError` and the validator says no; on an interpreter without the limit the model refuses texts that the source accepts.
- Numbers.IntToString: is total. In CPython `str()` of an integer over 4300 digits raises `ValueError`; here such an integer is shown as its digits. A decoded blob cannot hold one, because `json.loads` applies the same limit, but the model, which leaves `decode` unconstrained, does not capture that.
- Numbers.IsFloatText: does not accept `_` digit separators or non-ASCII digits, which Python's `float()` accepts.
- Fields.Coerce: a float is stored as the text that was typed, not as its binary value.
- A JSON boolean decodes to Python's `bool`, a subclass of `int`, and is shown as `True` or `False`. Here it is one of the `Other` values, which matches how its shown text behaves.
- The save loop iterates `self.entries.items()` and the opening loop iterates `self.variables`. Both are modelled as loops over the variable table: the two have the same keys in the same order.
- The loops sit in their own methods (`PopulateEntries`, `ApplyEntries`) rather than inline in `OpenFile` and `SaveFile`.
- The `Exception` raised by a non-dict decode result is folded into `decode` returning None.
- Tk switches off an entry's validation when its validator raises or returns a non-boolean. That cannot happen with these two validators, so it is not modelled.
