/**
 * The editor session: the path of the loaded file and the text of one entry
 * per variable. Opening a file fills the entries from the decoded blob; saving
 * writes a backup, coerces the non-blank entries into the blob, re-encodes it
 * and splices it back into the file's text; resetting blanks every entry.
 *
 * File contents are passed in as text and file writes are returned, in order,
 * as a list; the JSON decoder and encoder are parameters about which nothing
 * is assumed here.
 */
module Editor {
  import opened Wrappers
  import opened SaveText
  import opened Fields

  /** The message box an action ends with (none for a cancelled dialog). */
  datatype Report = Cancelled | NoFileLoaded | InvalidFormat | Failed | Success

  datatype FileWrite = FileWrite(path: string, text: string)

  function BackupPath(path: string): string
  {
    path + ".bak"
  }

  /** The second of two updates of the same key is the one that stays. */
  lemma UpdateTwice(m: map<string, string>, k: string, a: string, b: string)
    ensures m[k := a][k := b] == m[k := b]
  {
  }

  class SaveEditor {
    /** The variable table, in its order. */
    const variables: seq<string>
    /** The file opened last, None before any file was loaded. */
    var currentFile: Option<string>
    /** The text of each variable's entry. */
    var entries: map<string, string>

    ghost predicate Valid()
      reads this
    {
      && entries.Keys == (set v | v in variables)
      && AllValid(entries)
      && (currentFile.Some? ==> currentFile.value != "")
    }

    /** A new session: no file, every entry blank. */
    constructor ()
      ensures Valid() && variables == Variables && currentFile == None
      ensures forall v | v in entries :: entries[v] == ""
    {
      variables := Variables;
      entries := map v | v in Variables :: "";
      currentFile := None;
    }

    /**
     * One insert or delete in the entry of `name` proposes the entry's new
     * text; the entry's validator decides whether the edit happens. Tk applies
     * a keystroke over a selection, or a paste, as a delete followed by an
     * insert, each validated on its own: two calls here.
     */
    method Edit(name: string, proposed: string) returns (accepted: bool)
      requires Valid() && name in entries
      modifies this
      ensures Valid() && currentFile == old(currentFile)
      ensures accepted == Validator(name, proposed)
      ensures entries == if accepted then old(entries)[name := proposed] else old(entries)
    {
      accepted := Validator(name, proposed);
      if accepted {
        entries := entries[name := proposed];
      }
    }

    /**
     * Open the file `path` (the empty path when the dialog was cancelled),
     * whose text is `content`. The session changes only when the blob is found
     * and decodes.
     */
    method OpenFile(path: string, content: string, decode: string -> Option<Dict>)
      returns (report: Report)
      requires Valid()
      modifies this
      ensures Valid()
      ensures path == "" ==> report == Cancelled
      ensures path != "" && Blob(content).None? ==> report == InvalidFormat
      ensures path != "" && Blob(content).Some? && decode(Blob(content).value).None? ==>
                report == Failed
      ensures report == Success <==>
                path != "" && Blob(content).Some? && decode(Blob(content).value).Some?
      ensures report != Success ==> currentFile == old(currentFile) && entries == old(entries)
      ensures report == Success ==>
                && currentFile == Some(path)
                && entries == LoadedEntries(old(entries), decode(Blob(content).value).value)
    {
      if path == "" {
        return Cancelled;
      }
      var blob := Blob(content);
      if blob.None? {
        return InvalidFormat;
      }
      var decoded := decode(blob.value);
      if decoded.None? {
        return Failed;
      }
      currentFile := Some(path);
      ghost var entries0 := entries;
      PopulateEntries(decoded.value);
      LoadKeepsValid(entries0, decoded.value);
      report := Success;
    }

    /** The opening loop: refill the entry of every variable the blob holds. */
    method PopulateEntries(data: Dict)
      requires entries.Keys == set v | v in variables
      modifies this
      ensures currentFile == old(currentFile)
      ensures entries == LoadedEntries(old(entries), data)
    {
      ghost var entries0 := entries;
      ghost var visited: set<string> := {};
      var k := 0;
      while k < |variables|
        invariant 0 <= k <= |variables|
        invariant currentFile == old(currentFile)
        invariant forall i | 0 <= i < k :: variables[i] in visited
        invariant entries == LoadedOn(entries0, data, visited)
      {
        var v := variables[k];
        ghost var before := entries;
        // delete(0, END), then insert(0, text), which the validator may refuse
        if v in data {
          entries := entries[v := ""];
          entries := entries[v := Inserted(v, Show(data[v]))];
          UpdateTwice(before, v, "", Inserted(v, Show(data[v])));
        } else if v == WarheadsKey && LegacyWarheadsKey in data {
          entries := entries[v := ""];
          entries := entries[v := Inserted(v, Show(data[LegacyWarheadsKey]))];
          UpdateTwice(before, v, "", Inserted(v, Show(data[LegacyWarheadsKey])));
        } else {
          assert entries == before[v := before[v]];
        }
        LoadedOnStep(entries0, data, visited, v);
        visited := visited + {v};
        k := k + 1;
      }
      LoadedOnAll(entries0, data, visited);
    }

    /**
     * Save the entries into the loaded file, whose text is `content` now.
     * Returns the message shown and the files written, in order: the backup
     * copy first, then the new text, which is written only when every step
     * succeeded.
     */
    method SaveFile(content: string, decode: string -> Option<Dict>, encode: Dict -> string)
      returns (report: Report, writes: seq<FileWrite>)
      requires Valid()
      ensures currentFile.None? <==> report == NoFileLoaded
      ensures currentFile.None? ==> writes == []
      ensures currentFile.Some? ==>
                |writes| > 0 && writes[0] == FileWrite(BackupPath(currentFile.value), content)
      ensures currentFile.Some? && Blob(content).None? ==> report == InvalidFormat && |writes| == 1
      ensures currentFile.Some? && Blob(content).Some? && decode(Blob(content).value).None? ==>
                report == Failed && |writes| == 1
      ensures currentFile.Some? && Blob(content).Some? && decode(Blob(content).value).Some? ==>
                (report == Success <==> forall v | v in entries :: entries[v] != "-")
      ensures report == Success <==>
                && currentFile.Some? && Blob(content).Some?
                && decode(Blob(content).value).Some? && Writable(entries)
      ensures report != Success ==> |writes| <= 1
      ensures report == Success ==>
                var path := currentFile.value;
                var data := Updated(decode(Blob(content).value).value, entries);
                writes == [FileWrite(BackupPath(path), content),
                           FileWrite(path, Splice(content, encode(data)).value)]
    {
      if currentFile.None? {
        return NoFileLoaded, [];
      }
      var path := currentFile.value;
      writes := [FileWrite(BackupPath(path), content)];
      var blob := Blob(content);
      if blob.None? {
        return InvalidFormat, writes;
      }
      var decoded := decode(blob.value);
      if decoded.None? {
        return Failed, writes;
      }
      WritableUnlessDash(entries);
      var updated := ApplyEntries(decoded.value);
      if updated.None? {
        return Failed, writes;
      }
      var data := updated.value;
      var newJson := encode(data);
      SpliceIsReplace(content, newJson);
      var newContent := Replace(content, blob.value, newJson);
      writes := writes + [FileWrite(path, newContent)];
      report := Success;
    }

    /**
     * The saving loop: store each non-blank entry into `data`, as an integer
     * or a float by its variable's kind; None where a conversion raises.
     */
    method ApplyEntries(data: Dict) returns (r: Option<Dict>)
      requires Valid()
      ensures r.None? <==> !Writable(entries)
      ensures r.Some? ==> Writable(entries) && r.value == Updated(data, entries)
    {
      var out := data;
      ghost var visited: set<string> := {};
      var k := 0;
      while k < |variables|
        invariant 0 <= k <= |variables|
        invariant forall i | 0 <= i < k :: variables[i] in visited
        invariant Writable(Visited(entries, visited))
        invariant out == Updated(data, Visited(entries, visited))
      {
        var v := variables[k];
        var text := entries[v];
        VisitedStep(entries, data, visited, v);
        if text != "" {
          var value := Coerce(v, text);
          if value.None? {
            return None;
          }
          out := out[v := value.value];
        }
        visited := visited + {v};
        k := k + 1;
      }
      VisitedAll(entries, visited);
      r := Some(out);
    }

    /** Blank every entry; the loaded file stays loaded. */
    method ResetValues()
      requires Valid()
      modifies this
      ensures Valid() && currentFile == old(currentFile)
      ensures entries.Keys == old(entries).Keys
      ensures forall v | v in entries :: entries[v] == ""
    {
      var k := 0;
      while k < |variables|
        invariant 0 <= k <= |variables|
        invariant currentFile == old(currentFile)
        invariant entries.Keys == old(entries).Keys
        invariant forall v | v in entries :: entries[v] == if v in variables[..k] then "" else old(entries)[v]
      {
        var v := variables[k];
        assert variables[..k + 1] == variables[..k] + [v];
        entries := entries[v := ""];
        k := k + 1;
      }
      assert variables[..k] == variables;
    }
  }
}
