/** The store file: one JSON record per line, read with `bufio.Scanner`. */
module LineFile {
  import opened Evidence
  import opened Chain
  import opened Integrity

  /** The scanner's token limit, in bytes. A line this long without its newline is refused. */
  const MAX_LINE: nat := 16 * 1024 * 1024

  datatype ReadError = LineTooLong | DecodeFailed

  datatype ReadResult = Records(records: seq<Record>) | Unreadable(error: ReadError)

  /** The first line of the data without its newline. */
  function FirstLine(data: string): string {
    if data == "" || data[0] == '\n' then "" else [data[0]] + FirstLine(data[1..])
  }

  function AfterLine(data: string): (rest: string)
    ensures data != "" ==> |rest| < |data|
  {
    if data == "" then "" else if data[0] == '\n' then data[1..] else AfterLine(data[1..])
  }

  /** `bufio.ScanLines` drops one carriage return before the newline. */
  function DropCR(line: string): string {
    if line != "" && line[|line| - 1] == '\r' then line[..|line| - 1] else line
  }

  /** One line of the file: too long, skipped, undecodable, or a record. */
  function ReadLine(c: Codec, line: string): ReadResult {
    if |line| >= MAX_LINE then Unreadable(LineTooLong)
    else if DropCR(line) == "" then Records([])
    else match c.unmarshal(DropCR(line))
      case None => Unreadable(DecodeFailed)
      case Some(r) => Records([r])
  }

  /** First failure wins; otherwise the records of both parts. */
  function Then(x: ReadResult, y: ReadResult): ReadResult {
    if x.Unreadable? then x else if y.Unreadable? then y else Records(x.records + y.records)
  }

  function ReadSpec(c: Codec, data: string): ReadResult
    decreases |data|
  {
    if data == "" then Records([]) else Then(ReadLine(c, FirstLine(data)), ReadSpec(c, AfterLine(data)))
  }

  lemma ThenAssociates(x: ReadResult, y: ReadResult, z: ReadResult)
    ensures Then(Then(x, y), z) == Then(x, Then(y, z))
  {
    if x.Records? && y.Records? && z.Records? {
      assert (x.records + y.records) + z.records == x.records + (y.records + z.records);
    }
  }

  lemma ThenNothing(x: ReadResult)
    ensures Then(x, Records([])) == x == Then(Records([]), x)
  {
    if x.Records? {
      assert x.records + [] == x.records == [] + x.records;
    }
  }

  /** `readRecords` on the content of an existing file. */
  method ReadRecords(c: Codec, data: string) returns (res: ReadResult)
    ensures res == ReadSpec(c, data)
  {
    var records: seq<Record> := [];
    var rest := data;
    ThenNothing(ReadSpec(c, data));
    while rest != ""
      invariant ReadSpec(c, data) == Then(Records(records), ReadSpec(c, rest))
      decreases |rest|
    {
      var line := FirstLine(rest);
      ThenAssociates(Records(records), ReadLine(c, line), ReadSpec(c, AfterLine(rest)));
      rest := AfterLine(rest);
      if |line| >= MAX_LINE {
        return Unreadable(LineTooLong);
      }
      if DropCR(line) == "" {
        ThenNothing(Records(records));
        continue;
      }
      var r := c.unmarshal(DropCR(line));
      if r.None? {
        return Unreadable(DecodeFailed);
      }
      records := records + [r.value];
    }
    ThenNothing(Records(records));
    res := Records(records);
  }

  /** The line `appendLocked` writes for a sealed record. */
  function LineOf(c: Codec, r: Record): string {
    match c.marshal(r)
    case None => ""
    case Some(b) => b + "\n"
  }

  /** The file after these records were appended to a new one. */
  function FileOf(c: Codec, rs: seq<Record>): string {
    if rs == [] then "" else FileOf(c, rs[..|rs| - 1]) + LineOf(c, rs[|rs| - 1])
  }

  /** A sealed record survives the round trip through the file: its text is valid UTF-8 and its line
      is below the scanner's limit. `Append` checks neither. */
  predicate Storable(c: Codec, r: Record) {
    c.marshal(r).Some? && Text(c, r) && |c.marshal(r).value| < MAX_LINE
  }

  predicate AllStorable(c: Codec, rs: seq<Record>) { forall r | r in rs :: Storable(c, r) }

  /** The records as a reader sees them. */
  function Norms(c: Codec, rs: seq<Record>): (ns: seq<Record>)
    ensures |ns| == |rs| && forall i | 0 <= i < |rs| :: ns[i] == c.norm(rs[i])
  {
    seq(|rs|, i requires 0 <= i < |rs| => c.norm(rs[i]))
  }

  /** The data is empty or ends in a newline, as after whole-line writes. */
  predicate WholeLines(data: string) { data == "" || data[|data| - 1] == '\n' }

  lemma {:induction false} FirstLineOfLine(line: string, rest: string)
    requires '\n' !in line
    ensures FirstLine(line + "\n" + rest) == line && AfterLine(line + "\n" + rest) == rest
  {
    var data := line + "\n" + rest;
    if line != "" {
      assert line[0] in line;
      FirstLineOfLine(line[1..], rest);
      assert data[1..] == line[1..] + "\n" + rest;
    } else {
      assert data == "\n" + rest;
    }
  }

  lemma {:induction false} FirstLineOfPrefix(data: string, more: string)
    requires '\n' in data
    ensures FirstLine(data + more) == FirstLine(data) && AfterLine(data + more) == AfterLine(data) + more
    ensures WholeLines(data) ==> WholeLines(AfterLine(data))
  {
    assert (data + more)[1..] == data[1..] + more;
    if data[0] != '\n' {
      FirstLineOfPrefix(data[1..], more);
    }
  }

  /** Reading is line by line: after whole lines the reading goes on as if the rest were a file. */
  lemma {:induction false} ReadConcat(c: Codec, data: string, more: string)
    requires WholeLines(data)
    ensures ReadSpec(c, data + more) == Then(ReadSpec(c, data), ReadSpec(c, more))
    decreases |data|
  {
    if data == "" {
      assert data + more == more;
      ThenNothing(ReadSpec(c, more));
    } else {
      assert data[|data| - 1] in data;
      FirstLineOfPrefix(data, more);
      ReadConcat(c, AfterLine(data), more);
      ThenAssociates(ReadLine(c, FirstLine(data)), ReadSpec(c, AfterLine(data)), ReadSpec(c, more));
    }
  }

  /** One line of a file, by its bytes: too long at 16 MiB, skipped when it is empty up to a carriage return
      at its end, and otherwise whatever `json.Unmarshal` makes of it without that carriage return. */
  lemma LineMeans(c: Codec, line: string)
    requires '\n' !in line
    ensures var bare := if line != "" && line[|line| - 1] == '\r' then line[..|line| - 1] else line;
            ReadSpec(c, line + "\n")
            == if |line| >= 16_777_216 then Unreadable(LineTooLong)
               else if bare == "" then Records([])
               else if c.unmarshal(bare).Some? then Records([c.unmarshal(bare).value])
               else Unreadable(DecodeFailed)
    ensures ReadSpec(c, line) == ReadSpec(c, line + "\n")
  {
    FirstLineOfLine(line, "");
    LastLine(line);
    assert line + "\n" + "" == line + "\n" && ReadSpec(c, "") == Records([]);
    ThenNothing(ReadLine(c, line));
    if line == "" {
      assert ReadLine(c, "") == Records([]);
    }
  }

  /** The last line need not end in a newline. */
  lemma {:induction false} LastLine(line: string)
    requires '\n' !in line
    ensures FirstLine(line) == line && AfterLine(line) == ""
  {
    if line != "" {
      assert line[0] in line;
      LastLine(line[1..]);
    }
  }

  /** Appending a line to whole lines reads as one more record. */
  lemma ReadAppended(c: Codec, data: string, line: string)
    requires WholeLines(data) && LineSafe(line)
    ensures ReadSpec(c, data + line + "\n") == Then(ReadSpec(c, data), ReadLine(c, line))
  {
    assert data + line + "\n" == data + (line + "\n") && line + "\n" + "" == line + "\n";
    ReadConcat(c, data, line + "\n");
    FirstLineOfLine(line, "");
    assert ReadSpec(c, "") == Records([]);
    ThenNothing(ReadLine(c, line));
  }

  lemma {:induction false} FileIsWholeLines(c: Codec, rs: seq<Record>)
    ensures WholeLines(FileOf(c, rs))
  {
    if rs != [] {
      FileIsWholeLines(c, rs[..|rs| - 1]);
    }
  }

  lemma FileSnoc(c: Codec, rs: seq<Record>, r: Record)
    ensures FileOf(c, rs + [r]) == FileOf(c, rs) + LineOf(c, r)
  {
    assert (rs + [r])[..|rs|] == rs;
  }

  /** One appended line is read back as the record's normal form when it is below the limit, and
      makes the whole file unreadable otherwise. */
  lemma ReadFileSnoc(c: Codec, rs: seq<Record>, r: Record)
    requires Lawful(c) && c.marshal(r).Some?
    ensures ReadSpec(c, FileOf(c, rs + [r]))
         == Then(ReadSpec(c, FileOf(c, rs)),
                 if |c.marshal(r).value| < MAX_LINE then Records([c.norm(r)]) else Unreadable(LineTooLong))
  {
    FileSnoc(c, rs, r);
    FileIsWholeLines(c, rs);
    assert RecordLaws(c, r);
    ReadAppended(c, FileOf(c, rs), c.marshal(r).value);
    assert FileOf(c, rs) + LineOf(c, r) == FileOf(c, rs) + c.marshal(r).value + "\n";
  }

  /** Round trip: what was appended is what is read, in order, up to normal form. */
  lemma {:induction false} RoundTrip(c: Codec, rs: seq<Record>)
    requires Lawful(c) && AllStorable(c, rs)
    ensures ReadSpec(c, FileOf(c, rs)) == Records(Norms(c, rs))
  {
    if rs != [] {
      var init, r := rs[..|rs| - 1], rs[|rs| - 1];
      assert rs == init + [r] && r in rs;
      RoundTrip(c, init);
      ReadFileSnoc(c, init, r);
      assert Norms(c, rs) == Norms(c, init) + [c.norm(r)];
    }
  }

  /** The recomputed hash of a record read back is the stored one exactly when its text is valid. */
  lemma SoundNorm(c: Codec, r: Record)
    requires Lawful(c) && Sound(c, r)
    ensures c.norm(r).hash == r.hash && (c.utf8(r.prevHash) ==> c.norm(r).prevHash == r.prevHash)
    ensures Text(c, r) ==> Sound(c, c.norm(r))
    ensures Sound(c, c.norm(r)) ==> Text(c, r) || Collides(c, r, c.norm(r))
  {
    NormKeepsHash(c, r);
    HashForm(c, r);
    EmptyIsText(c);
    var bare := WithHash(r, "");
    assert RecordLaws(c, bare) && RecordLaws(c, r);
    assert Text(c, bare) <==> Text(c, r);
  }

  predicate AllText(c: Codec, rs: seq<Record>) { forall r | r in rs :: Text(c, r) }

  /** A chain that verifies when it is sealed verifies as read back exactly when all its text is valid
      UTF-8, unless a record collides with its own normal form. */
  lemma {:induction false} NormsVerify(c: Codec, rs: seq<Record>)
    requires Lawful(c) && Verified(c, rs)
    ensures Head(Norms(c, rs)) == Head(rs)
    ensures AllText(c, rs) ==> Verified(c, Norms(c, rs))
    ensures CollisionIn(c, rs, Norms(c, rs)) || (Verified(c, Norms(c, rs)) ==> AllText(c, rs))
  {
    if rs != [] {
      var init, r := rs[..|rs| - 1], rs[|rs| - 1];
      assert rs == init + [r];
      VerifiedSnoc(c, init, r);
      NormsVerify(c, init);
      assert Norms(c, rs) == Norms(c, init) + [c.norm(r)];
      VerifiedSnoc(c, Norms(c, init), c.norm(r));
      VerifiedAt(c, rs, |rs| - 1);
      SoundNorm(c, r);
      if CollisionIn(c, init, Norms(c, init)) {
        CollisionGrows(c, init, Norms(c, init), rs, Norms(c, rs));
      }
      if Collides(c, r, c.norm(r)) {
        assert Collides(c, rs[|rs| - 1], Norms(c, rs)[|rs| - 1]);
      }
    }
  }

  /** The chain in a file is readable and verifies. */
  ghost predicate Accepted(c: Codec, data: string) {
    ReadSpec(c, data).Records? && Verified(c, ReadSpec(c, data).records)
  }

  /** A chain that can be read back. */
  ghost predicate Good(c: Codec, rs: seq<Record>) { Verified(c, rs) && AllStorable(c, rs) }

  /** Its file is accepted, with the head it had in memory. */
  lemma GoodAccepted(c: Codec, rs: seq<Record>)
    requires Lawful(c) && Good(c, rs)
    ensures ReadSpec(c, FileOf(c, rs)) == Records(Norms(c, rs)) && Accepted(c, FileOf(c, rs))
    ensures Head(Norms(c, rs)) == Head(rs)
  {
    RoundTrip(c, rs);
    NormsVerify(c, rs);
    assert forall r | r in rs :: Storable(c, r);
  }

  /** A concurrent reader that sees only the first lines of any accepted file, whoever wrote it, sees an
      accepted file that holds the first records. */
  lemma LinePrefixAccepted(c: Codec, data: string, more: string)
    requires WholeLines(data) && Accepted(c, data + more)
    ensures Accepted(c, data) && ReadSpec(c, data).records <= ReadSpec(c, data + more).records
  {
    ReadConcat(c, data, more);
    var read := ReadSpec(c, data).records;
    assert ReadSpec(c, data + more).records[..|read|] == read;
    VerifiedPrefix(c, ReadSpec(c, data + more).records, |read|);
  }

  /** The file of a sealed chain: its first `k` lines read as the first `k` records. */
  lemma LinePrefixVerifies(c: Codec, rs: seq<Record>, k: nat)
    requires Lawful(c) && AllStorable(c, rs) && Verified(c, rs) && k <= |rs|
    ensures FileOf(c, rs[..k]) <= FileOf(c, rs)
    ensures ReadSpec(c, FileOf(c, rs[..k])) == Records(Norms(c, rs)[..k])
    ensures Verified(c, Norms(c, rs)[..k])
  {
    FilePrefix(c, rs, k);
    FileIsWholeLines(c, rs[..k]);
    GoodAccepted(c, rs);
    RoundTrip(c, rs[..k]);
    hide *;
    var rest := FileOf(c, rs)[|FileOf(c, rs[..k])|..];
    assert FileOf(c, rs[..k]) + rest == FileOf(c, rs);
    LinePrefixAccepted(c, FileOf(c, rs[..k]), rest);
    assert Norms(c, rs[..k]) == Norms(c, rs)[..k];
    AcceptedRecords(c, FileOf(c, rs[..k]));
  }

  lemma AcceptedRecords(c: Codec, data: string)
    requires Accepted(c, data)
    ensures ReadSpec(c, data).Records? && Verified(c, ReadSpec(c, data).records)
  {
  }

  lemma {:induction false} FilePrefix(c: Codec, rs: seq<Record>, k: nat)
    requires k <= |rs|
    ensures FileOf(c, rs[..k]) <= FileOf(c, rs)
  {
    if k == |rs| {
      assert rs[..k] == rs;
    } else {
      FilePrefix(c, rs[..|rs| - 1], k);
      assert rs[..|rs| - 1][..k] == rs[..k];
    }
  }
}
