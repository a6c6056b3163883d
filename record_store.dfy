/** The record store: the bounded account table, how it is loaded from the backing
    file and how it is written back. The file is modelled as its sequence of lines. */
module RecordStore {
  import opened Accounts
  import opened RecordFormat

  /** The backing file: its lines when it exists (`None` when it cannot be opened for
      reading), and whether it can be opened for writing. */
  datatype Disk = Disk(contents: Option<seq<string>>, writable: bool)

  /** What loading reports: no file, a malformed line (numbered from 1 as in the
      message the loader prints), or the records read. */
  datatype LoadOutcome = NotFound | Corrupt(line: nat) | Loaded(records: seq<Account>)

  /** Every line of the file, read as a record line, in file order. */
  function ParseLines(lines: seq<string>): (r: seq<Option<Account>>)
    ensures |r| == |lines|
  {
    if lines == [] then [] else [ParseLine(lines[0])] + ParseLines(lines[1..])
  }

  /** Entry `i` of the parsed file is line `i` read as a record line. */
  lemma {:induction false} ParseLinesAt(lines: seq<string>, i: nat)
    requires i < |lines|
    ensures ParseLines(lines)[i] == ParseLine(lines[i])
  {
    if i > 0 {
      ParseLinesAt(lines[1..], i - 1);
    }
  }

  /** Reading the first `n` lines gives the first `n` entries of the parsed file. */
  lemma ParseLinesPrefix(lines: seq<string>, n: nat)
    requires n <= |lines|
    ensures ParseLines(lines[..n]) == ParseLines(lines)[..n]
  {
    forall i | 0 <= i < n ensures ParseLines(lines[..n])[i] == ParseLines(lines)[i] {
      ParseLinesAt(lines[..n], i);
      ParseLinesAt(lines, i);
    }
  }

  /** The values of the longest run of `Some` at the head of `parsed`. */
  function LeadingValues<T>(parsed: seq<Option<T>>): (r: seq<T>)
    ensures |r| <= |parsed|
    ensures forall i :: 0 <= i < |r| ==> parsed[i] == Some(r[i])
    ensures |r| < |parsed| ==> parsed[|r|].None?
  {
    if parsed == [] then []
    else
      match parsed[0]
      case None => []
      case Some(a) => [a] + LeadingValues(parsed[1..])
  }

  /** The records of the longest run of well-formed lines at the head of the file. */
  function LeadingRecords(lines: seq<string>): (r: seq<Account>)
    ensures |r| <= |lines|
  {
    LeadingValues(ParseLines(lines))
  }

  /** The leading records are read from the lines they stand on, and the line right
      after them, if any, is malformed. */
  lemma LeadingRecordsParsed(lines: seq<string>)
    ensures var r := LeadingRecords(lines);
      (forall i :: 0 <= i < |r| ==> ParseLine(lines[i]) == Some(r[i]))
      && (|r| < |lines| ==> ParseLine(lines[|r|]).None?)
  {
    var r := LeadingRecords(lines);
    forall i | 0 <= i < |r| ensures ParseLine(lines[i]) == Some(r[i]) {
      ParseLinesAt(lines, i);
    }
    if |r| < |lines| {
      ParseLinesAt(lines, |r|);
    }
  }

  /** The outcome of loading a file: the loader reads lines until the end of the file
      or until the table is full, and gives up at the first malformed line before that. */
  function LoadFile(file: Option<seq<string>>): (r: LoadOutcome)
    ensures r.NotFound? <==> file.None?
    ensures r.Loaded? ==> |r.records| <= MaxAccounts
  {
    match file
    case None => NotFound
    case Some(lines) =>
      var recs := LeadingRecords(lines);
      if |recs| >= MaxAccounts then Loaded(recs[..MaxAccounts])
      else if |recs| == |lines| then Loaded(recs)
      else Corrupt(|recs| + 1)
  }

  /** A successful load holds one record per line, in file order, and stops only at
      the capacity or at the end of the file. */
  lemma LoadedOutcome(lines: seq<string>)
    requires LoadFile(Some(lines)).Loaded?
    ensures var recs := LoadFile(Some(lines)).records;
      |recs| <= |lines| && (|recs| == MaxAccounts || |recs| == |lines|)
      && forall i :: 0 <= i < |recs| ==> ParseLine(lines[i]) == Some(recs[i])
  {
    var leading := LeadingRecords(lines);
    var recs := LoadFile(Some(lines)).records;
    forall i | 0 <= i < |recs| ensures ParseLine(lines[i]) == Some(recs[i]) {
      assert recs[i] == leading[i];
      ParseLinesAt(lines, i);
    }
  }

  /** A failed load at line `k + 1` (numbered from 1) means that line is within the
      capacity and malformed, and every line before it is well formed. */
  lemma CorruptOutcome(lines: seq<string>, k: nat)
    requires LoadFile(Some(lines)) == Corrupt(k + 1)
    ensures k < MaxAccounts && k < |lines| && ParseLine(lines[k]).None?
    ensures forall i :: 0 <= i < k ==> ParseLine(lines[i]).Some?
  {
    var leading := LeadingRecords(lines);
    assert k == |leading|;
    ParseLinesAt(lines, k);
    forall i | 0 <= i < k ensures ParseLine(lines[i]).Some? {
      ParseLinesAt(lines, i);
    }
  }

  /** Loading succeeds exactly when every line before the end of the file and before
      the capacity is well formed. */
  lemma LoadSucceedsIff(lines: seq<string>)
    ensures LoadFile(Some(lines)).Loaded? <==>
      forall i :: 0 <= i < |lines| && i < MaxAccounts ==> ParseLine(lines[i]).Some?
  {
    var recs := LeadingRecords(lines);
    LeadingRecordsParsed(lines);
    if |recs| < MaxAccounts && |recs| < |lines| {
      assert ParseLine(lines[|recs|]).None?;
    } else {
      forall i | 0 <= i < |lines| && i < MaxAccounts ensures ParseLine(lines[i]).Some? {
        assert ParseLine(lines[i]) == Some(recs[i]);
      }
    }
  }

  /** The leading run of a prefix is the matching prefix of the leading run. */
  lemma {:induction false} LeadingValuesOfPrefix<T>(parsed: seq<Option<T>>, n: nat)
    requires n <= |parsed|
    ensures var r := LeadingValues(parsed);
      LeadingValues(parsed[..n]) == r[..if |r| < n then |r| else n]
  {
    if n > 0 && parsed[0].Some? {
      var tail := LeadingValues(parsed[1..]);
      LeadingValuesOfPrefix(parsed[1..], n - 1);
      assert parsed[..n][1..] == parsed[1..][..n - 1];
      var m := if |tail| < n - 1 then |tail| else n - 1;
      assert ([parsed[0].value] + tail)[..m + 1] == [parsed[0].value] + tail[..m];
    }
  }

  /** When every entry is `Some`, the leading run is all their values. */
  lemma {:induction false} LeadingValuesAllSome<T>(parsed: seq<Option<T>>, values: seq<T>)
    requires |parsed| == |values|
    requires forall i :: 0 <= i < |parsed| ==> parsed[i] == Some(values[i])
    ensures LeadingValues(parsed) == values
  {
    if parsed != [] {
      LeadingValuesAllSome(parsed[1..], values[1..]);
      assert values == [values[0]] + values[1..];
    }
  }

  /** A `Some` right after a run of `Some` at the head extends the run by its value. */
  lemma LeadingValuesExtend<T>(parsed: seq<Option<T>>, k: nat)
    requires k <= |LeadingValues(parsed)| && k < |parsed| && parsed[k].Some?
    ensures k < |LeadingValues(parsed)|
    ensures LeadingValues(parsed)[..k + 1] == LeadingValues(parsed)[..k] + [parsed[k].value]
  {
    var r := LeadingValues(parsed);
    assert r[..k + 1] == r[..k] + [r[k]];
  }

  /** Lines after the tenth are never read: they affect neither success nor the records. */
  lemma LoadIgnoresLinesBeyondCapacity(lines: seq<string>)
    requires |lines| >= MaxAccounts
    ensures LoadFile(Some(lines)) == LoadFile(Some(lines[..MaxAccounts]))
  {
    ParseLinesPrefix(lines, MaxAccounts);
    LeadingValuesOfPrefix(ParseLines(lines), MaxAccounts);
  }

  /** The file the save operation writes: one `%d,%s,%.2f` line per record, in table order. */
  function FormatAll(records: seq<Account>): (r: seq<string>)
    ensures |r| == |records|
  {
    seq(|records|, i requires 0 <= i < |records| => FormatLine(records[i]))
  }

  /** The disk after a save of `records`: rewritten in full when it can be opened for
      writing, untouched otherwise. */
  function SaveTo(disk: Disk, records: seq<Account>): (r: Disk)
    ensures r.writable == disk.writable
    ensures !disk.writable ==> r == disk
    ensures disk.writable ==> r.contents.Some? && |r.contents.value| == |records|
  {
    if disk.writable then disk.(contents := Some(FormatAll(records))) else disk
  }

  /** Saving a table within capacity and loading the file again gives back the same
      pins, names and cents in the same order. */
  lemma SaveLoadRoundTrip(records: seq<Account>)
    requires |records| <= MaxAccounts
    requires forall i :: 0 <= i < |records| ==> NameOk(records[i].name)
    ensures LoadFile(Some(FormatAll(records))) == Loaded(records)
  {
    var lines := FormatAll(records);
    var parsed := ParseLines(lines);
    forall i | 0 <= i < |records| ensures parsed[i] == Some(records[i]) {
      ParseLinesAt(lines, i);
      LineRoundTrip(records[i]);
    }
    LeadingValuesAllSome(parsed, records);
    if |records| == MaxAccounts {
      assert records[..MaxAccounts] == records;
    }
  }

  /** Every loaded table is within capacity and holds only names that can be saved. */
  lemma LoadedRecordsSavable(file: Option<seq<string>>)
    requires LoadFile(file).Loaded?
    ensures var recs := LoadFile(file).records;
      |recs| <= MaxAccounts && forall i :: 0 <= i < |recs| ==> NameOk(recs[i].name)
  {
    var recs := LoadFile(file).records;
    LoadedOutcome(file.value);
    forall i | 0 <= i < |recs| ensures NameOk(recs[i].name) {
      assert ParseLine(file.value[i]) == Some(recs[i]);
    }
  }

  /** Where the loader stops at the end of the file or at capacity, having read only
      well-formed lines, the load succeeds with the lines read. */
  lemma LoadStopsCleanly(lines: seq<string>, k: nat)
    requires k <= |LeadingRecords(lines)| && k <= MaxAccounts
    requires k == MaxAccounts || k == |lines|
    ensures LoadFile(Some(lines)) == Loaded(LeadingRecords(lines)[..k])
  {
    var leading := LeadingRecords(lines);
    if |leading| < MaxAccounts {
      assert k == |leading| == |lines|;
      assert leading[..k] == leading;
    }
  }

  /** A well-formed line right after a run of well-formed lines extends the run. */
  lemma LeadingRecordsExtend(lines: seq<string>, k: nat)
    requires k <= |LeadingRecords(lines)| && k < |lines|
    requires ParseLine(lines[k]).Some?
    ensures k < |LeadingRecords(lines)|
    ensures LeadingRecords(lines)[..k + 1] == LeadingRecords(lines)[..k] + [ParseLine(lines[k]).value]
  {
    ParseLinesAt(lines, k);
    LeadingValuesExtend(ParseLines(lines), k);
  }

  /** Where the loader meets a malformed line before capacity, the load fails at it,
      and the records read before it are the whole leading run. */
  lemma LoadStopsAtMalformed(lines: seq<string>, k: nat)
    requires k <= |LeadingRecords(lines)| && k < MaxAccounts && k < |lines|
    requires ParseLine(lines[k]).None?
    ensures k == |LeadingRecords(lines)| && LoadFile(Some(lines)) == Corrupt(k + 1)
    ensures LeadingRecords(lines)[..k] == LeadingRecords(lines)
  {
    ParseLinesAt(lines, k);
  }

  /** The account table: a fixed array of `MaxAccounts` slots of which the first
      `count` are in use. */
  class AccountList {
    var accounts: array<Account>
    var count: nat

    ghost predicate Valid()
      reads this
    {
      accounts.Length == MaxAccounts && count <= MaxAccounts
    }

    /** The records in use, in table order. */
    ghost function Records(): seq<Account>
      reads this, accounts
      requires Valid()
    {
      accounts[..count]
    }

    constructor ()
      ensures Valid() && fresh(accounts) && count == 0
    {
      accounts := new Account[MaxAccounts];
      count := 0;
    }

    /** Fills the table from the file. A missing file leaves the table as it was; a
        malformed line stops the load with the records before it left in the table. */
    method Load(file: Option<seq<string>>) returns (ok: bool)
      requires Valid()
      modifies this`count, accounts
      ensures Valid()
      ensures ok <==> LoadFile(file).Loaded?
      ensures ok ==> Records() == LoadFile(file).records
      ensures file.None? ==> count == old(count) && accounts[..] == old(accounts[..])
      ensures !ok && file.Some? ==>
        LoadFile(file) == Corrupt(count + 1) && Records() == LeadingRecords(file.value)
    {
      if file.None? {
        return false;
      }
      var lines := file.value;
      ghost var leading := LeadingRecords(lines);
      count := 0;
      while count < MaxAccounts
        invariant Valid()
        invariant count <= |leading|
        invariant Records() == leading[..count]
      {
        if count == |lines| {
          break;
        }
        var result := ParseLine(lines[count]);
        if result.None? {
          LoadStopsAtMalformed(lines, count);
          return false;
        }
        LeadingRecordsExtend(lines, count);
        Add(result.value);
      }
      LoadStopsCleanly(lines, count);
      return true;
    }

    /** Puts `record` in the first free slot, as the loader does with each line it reads. */
    method Add(record: Account)
      requires Valid() && count < MaxAccounts
      modifies this`count, accounts
      ensures Valid() && Records() == old(Records()) + [record]
    {
      ghost var before := accounts[..count];
      accounts[count] := record;
      count := count + 1;
      assert accounts[..count] == before + [record];
    }

    /** Writes every record in table order; when the file cannot be opened for
        writing nothing is written. */
    method Save(disk: Disk) returns (written: Disk)
      requires Valid()
      ensures written == SaveTo(disk, Records())
    {
      if !disk.writable {
        return disk;
      }
      var lines: seq<string> := [];
      for i := 0 to count
        invariant lines == FormatAll(accounts[..i])
      {
        lines := lines + [FormatLine(accounts[i])];
      }
      written := disk.(contents := Some(lines));
    }
  }
}
