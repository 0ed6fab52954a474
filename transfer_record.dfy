/** The transfer record of rsem_transfer.py: an append-only text file, one line per
    transferred sample id (its path relative to the local top output directory),
    with a '# timestamp' comment line before each batch. A sample listed in it is
    never offered for transfer again. */
module TransferRecord {
  import opened Common
  import opened Text

  /** get_gsms_transferred: a missing file reads as no ids; otherwise every line,
      stripped, except those that start with '#' once stripped. */
  function ReadRecord(file: Option<string>): seq<string>
  {
    if file.None? then [] else IdsOf(Lines(file.value))
  }

  function IdsOf(lines: seq<string>): seq<string>
  {
    if lines == [] then [] else IdOf(lines[0]) + IdsOf(lines[1..])
  }

  /** What one line contributes: its stripped text, unless that is a comment. */
  function IdOf(line: string): seq<string>
  {
    if StartsWith(Strip(line), "#") then [] else [Strip(line)]
  }

  /** The text already in the file; a missing file is created empty by mode 'ab'. */
  function Contents(file: Option<string>): string
  {
    if file.None? then "" else file.value
  }

  /** One line per id, in order. */
  function IdLines(ids: seq<string>): string
  {
    if ids == [] then "" else ids[0] + "\n" + IdLines(ids[1..])
  }

  /** What append_transfer_record writes for one batch. */
  function RecordBlock(timestamp: string, ids: seq<string>): string
  {
    "# " + timestamp + "\n" + IdLines(ids)
  }

  /** An id that survives a write and a re-read unchanged: a single line, nothing for
      str.strip() to remove, and not mistaken for a comment. */
  predicate Recordable(id: string)
  {
    '\n' !in id && IsStripped(id) && !StartsWith(id, "#")
  }

  lemma {:induction false} IdsOfConcat(a: seq<string>, b: seq<string>)
    ensures IdsOf(a + b) == IdsOf(a) + IdsOf(b)
  {
    if a == [] {
      assert a + b == b;
    } else {
      assert (a + b)[0] == a[0] && (a + b)[1..] == a[1..] + b;
      IdsOfConcat(a[1..], b);
      assert IdsOf(a + b) == IdOf(a[0]) + (IdsOf(a[1..]) + IdsOf(b));
    }
  }

  lemma {:induction false} IdLinesSnoc(ids: seq<string>, id: string)
    ensures IdLines(ids + [id]) == IdLines(ids) + id + "\n"
  {
    if ids == [] {
      assert ids + [id] == [id];
    } else {
      assert (ids + [id])[1..] == ids[1..] + [id];
      IdLinesSnoc(ids[1..], id);
    }
  }

  lemma {:induction false} IdLinesEndLine(ids: seq<string>)
    ensures EndsLine(IdLines(ids))
  {
    if ids != [] {
      IdLinesEndLine(ids[1..]);
    }
  }

  /** Reading back the id lines of a batch yields exactly the batch. */
  lemma {:induction false} ReadIdLines(ids: seq<string>)
    requires forall id <- ids :: Recordable(id)
    ensures IdsOf(Lines(IdLines(ids))) == ids
  {
    if ids != [] {
      var head := ids[0] + "\n";
      assert IdLines(ids) == head + IdLines(ids[1..]);
      LinesOfConcat(head, IdLines(ids[1..]));
      assert Recordable(ids[0]);
      LinesOfOneLine(ids[0]);
      ReadIdLines(ids[1..]);
      StripDropsNewline(ids[0]);
      IdsOfConcat([head], Lines(IdLines(ids[1..])));
    }
  }

  /** A comment line reads as nothing. */
  lemma CommentReadsAsNothing(line: string, rest: seq<string>)
    requires line != [] && line[0] == '#'
    ensures IdsOf([line] + rest) == IdsOf(rest)
  {
    StripKeepsHead(line);
    var t := Strip(line);
    assert t[..1] == "#";
    assert IdOf(line) == [];
    assert ([line] + rest)[0] == line && ([line] + rest)[1..] == rest;
  }

  /** A batch reads back as its ids: the timestamp line reads as nothing. */
  lemma ReadBlock(timestamp: string, ids: seq<string>)
    requires '\n' !in timestamp
    requires forall id <- ids :: Recordable(id)
    ensures IdsOf(Lines(RecordBlock(timestamp, ids))) == ids
  {
    var header := "# " + timestamp;
    assert '\n' !in header by {
      assert forall i :: 0 <= i < |header| ==> header[i] == '#' || header[i] == ' ' || header[i] in timestamp;
    }
    var comment := header + "\n";
    assert RecordBlock(timestamp, ids) == comment + IdLines(ids);
    LinesOfConcat(comment, IdLines(ids));
    LinesOfOneLine(header);
    CommentReadsAsNothing(comment, Lines(IdLines(ids)));
    ReadIdLines(ids);
  }

  /** The round trip of the record: after appending a batch to a file that ends a
      line (every file this module writes does), reading yields the ids read before,
      then the batch, in order. */
  lemma ReadAfterAppend(file: Option<string>, timestamp: string, ids: seq<string>)
    requires EndsLine(Contents(file))
    requires '\n' !in timestamp
    requires forall id <- ids :: Recordable(id)
    ensures ReadRecord(Some(Contents(file) + RecordBlock(timestamp, ids))) == ReadRecord(file) + ids
  {
    var before := Contents(file);
    var block := RecordBlock(timestamp, ids);
    LinesOfConcat(before, block);
    IdsOfConcat(Lines(before), Lines(block));
    ReadBlock(timestamp, ids);
    assert file.None? ==> Lines(before) == [];
  }

  /** The record file of one local top output directory. */
  class TransferLog {
    /** The file's text, or None while it does not exist. */
    var file: Option<string>

    constructor (file: Option<string>)
      ensures this.file == file
    {
      this.file := file;
    }

    /** The ids the record lists (get_gsms_transferred). */
    function Transferred(): seq<string>
      reads this
    {
      ReadRecord(file)
    }

    /** append_transfer_record: open for appending, write the timestamp comment,
        then one line per id. The clock is a parameter. */
    method Append(ids: seq<string>, timestamp: string)
      modifies this
      ensures file == Some(Contents(old(file)) + RecordBlock(timestamp, ids))
      ensures EndsLine(file.value)
    {
      var text := Contents(file) + "# " + timestamp + "\n";
      for i := 0 to |ids|
        invariant text == Contents(old(file)) + "# " + timestamp + "\n" + IdLines(ids[..i])
      {
        IdLinesSnoc(ids[..i], ids[i]);
        assert ids[..i + 1] == ids[..i] + [ids[i]];
        text := text + ids[i] + "\n";
      }
      assert ids[..|ids|] == ids;
      assert text == Contents(old(file)) + RecordBlock(timestamp, ids);
      IdLinesEndLine(ids);
      file := Some(text);
    }

    /** The end of main: nothing is transferred or recorded when no sample was
        selected, and a batch is recorded only when the transfer script exits with 0. */
    method RecordTransferOutcome(gsms: seq<string>, rcode: int, timestamp: string)
      modifies this
      ensures gsms != [] && rcode == 0 ==> file == Some(Contents(old(file)) + RecordBlock(timestamp, gsms))
      ensures gsms == [] || rcode != 0 ==> file == old(file)
    {
      if gsms == [] {
        return;
      }
      if rcode == 0 {
        Append(gsms, timestamp);
      }
    }
  }

  /** A record this module has written keeps every id it held and gains the batch:
      the record only grows. */
  lemma SuccessfulTransferExtendsRecord(before: Option<string>, timestamp: string, gsms: seq<string>)
    requires EndsLine(Contents(before)) && '\n' !in timestamp
    requires forall id <- gsms :: Recordable(id)
    ensures IsPrefix(ReadRecord(before), ReadRecord(Some(Contents(before) + RecordBlock(timestamp, gsms))))
    ensures forall id <- gsms :: id in ReadRecord(Some(Contents(before) + RecordBlock(timestamp, gsms)))
  {
    ReadAfterAppend(before, timestamp, gsms);
    var after := ReadRecord(before) + gsms;
    assert after[..|ReadRecord(before)|] == ReadRecord(before);
  }
}
