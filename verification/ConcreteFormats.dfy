/** A concrete instance of the bundle formats: `LawfulFormats` is consistent too. And a concrete store in
    which the record that breaks reopening is shown. */
module ConcreteFormats {
  import opened Evidence
  import opened Chain
  import opened LineFile
  import opened Store
  import opened Bundle
  import opened ConcreteCodec
  import History
  import Runs
  import Failure

  function PutInt(t: int, rest: string): string {
    if t < 0 then ['-'] + PutNat(-t, rest) else ['+'] + PutNat(t, rest)
  }

  function GetInt(b: string): Got<int> {
    if b == "" then Nothing else
    var n := GetNat(b[1..]);
    if n.Nothing? then Nothing else
    var v: int := n.value;
    Got(if b[0] == '-' then -v else v, n.rest)
  }

  lemma GetPutInt(t: int, rest: string)
    ensures GetInt(PutInt(t, rest)) == Got(t, rest)
  {
    var n := if t < 0 then -t else t;
    GetPutNat(n, rest);
    assert PutInt(t, rest)[1..] == PutNat(n, rest);
  }

  ghost function PutRecords(rs: seq<Record>, rest: string): string
    requires forall r | r in rs :: r.collectedAt >= 0
  {
    if rs == [] then ['e'] + rest else ['x'] + PutRecord(rs[0], PutRecords(rs[1..], rest))
  }

  function GetRecords(b: string): Got<seq<Record>>
    decreases |b|
  {
    if b == "" then Nothing
    else if b[0] == 'e' then Got([], b[1..])
    else
      var r := GetRecord(b[1..]);
      if r.Nothing? || |r.rest| >= |b| then Nothing else
      var more := GetRecords(r.rest);
      if more.Nothing? then Nothing else Got([r.value] + more.value, more.rest)
  }

  lemma {:induction false} PutNatGrows(n: nat, rest: string)
    ensures |PutNat(n, rest)| > |rest|
  {
    if n > 0 {
      PutNatGrows(n - 1, rest);
    }
  }

  lemma {:induction false} PutListGrows(xs: seq<string>, rest: string)
    ensures |PutList(xs, rest)| > |rest|
  {
    if xs != [] {
      PutListGrows(xs[1..], rest);
      PutStrGrows(xs[0], PutList(xs[1..], rest));
    }
  }

  lemma PutPartsGrows(p: Parts, rest: string)
    ensures |PutParts(p, rest)| > |rest|
  {
    PutListGrows(p.attributes, rest);
    PutListGrows(p.controlIds, PutList(p.attributes, rest));
    PutListGrows(p.fields, PutList(p.controlIds, PutList(p.attributes, rest)));
    PutNatGrows(p.at, PutList(p.fields, PutList(p.controlIds, PutList(p.attributes, rest))));
  }

  lemma {:induction false} GetPutRecords(rs: seq<Record>, rest: string)
    requires forall r | r in rs :: r.collectedAt >= 0
    ensures GetRecords(PutRecords(rs, rest)) == Got(Norms(Concrete(), rs), rest)
  {
    hide PutParts, PartsOf, GetRecord, AsciiRecord, Norm;
    var b := PutRecords(rs, rest);
    if rs == [] {
      assert b[1..] == rest;
      assert Norms(Concrete(), rs) == [];
    } else {
      var tail := PutRecords(rs[1..], rest);
      GetPutRecords(rs[1..], rest);
      GetPutRecord(rs[0], tail);
      NormIsAscii(rs[0]);
      PutPartsGrows(PartsOf(Norm(rs[0])), tail);
      assert b[1..] == PutRecord(rs[0], tail);
      assert Norms(Concrete(), rs) == [Norm(rs[0])] + Norms(Concrete(), rs[1..]);
    }
  }

  ghost function EncodeHeader(h: Header): Option<string> {
    if h.generatedAt < 0 || exists r :: r in h.records && r.collectedAt < 0 then None
    else Some(PutList([h.tool, h.framework], PutInt(h.generatedAt, PutNat(h.recordCount, PutRecords(h.records, "")))))
  }

  function DecodeHeader(b: string): Option<Header> {
    var names := GetList(b);
    if names.Nothing? || |names.value| != 2 then None else
    var at := GetInt(names.rest);
    if at.Nothing? then None else
    var n := GetNat(at.rest);
    if n.Nothing? then None else
    var rs := GetRecords(n.rest);
    if rs.Nothing? then None else Some(Header(names.value[0], names.value[1], at.value, n.value, rs.value))
  }

  ghost function EncodeManifest(man: Manifest): Option<string> {
    if man.generatedAt < 0 then None else Some(ManifestBytes(man))
  }

  ghost function ManifestBytes(man: Manifest): string {
    PutInt(man.generatedAt, PutList([man.publicKey, man.signature], PutList(Listed(man.files), "")))
  }

  function DecodeManifest(b: string): Option<Manifest> {
    var at := GetInt(b);
    if at.Nothing? then None else
    var keys := GetList(at.rest);
    if keys.Nothing? || |keys.value| != 2 then None else
    var files := GetList(keys.rest);
    if files.Nothing? then None else Some(Manifest(at.value, Unflat(files.value), keys.value[0], keys.value[1]))
  }

  function PutCodes(s: string): string { if s == "" then "" else PutNat(s[0] as int, PutCodes(s[1..])) }

  function GetCodes(b: string): Option<string>
    decreases |b|
  {
    if b == "" then Some("") else
    var n := GetNat(b);
    if n.Nothing? || |n.rest| >= |b| || !(n.value < 0xD800 || 0xE000 <= n.value < 0x11_0000) then None else
    var more := GetCodes(n.rest);
    if more.None? then None else Some([n.value as char] + more.value)
  }

  lemma {:induction false} AsciiNat(n: nat, rest: string)
    requires Ascii(rest)
    ensures Ascii(PutNat(n, rest))
  {
    if n > 0 {
      AsciiNat(n - 1, rest);
    }
  }

  lemma {:induction false} GetPutCodes(s: string)
    ensures GetCodes(PutCodes(s)) == Some(s) && Ascii(PutCodes(s)) && (s != "" ==> PutCodes(s) != "")
  {
    if s != "" {
      GetPutCodes(s[1..]);
      GetPutNat(s[0] as int, PutCodes(s[1..]));
      PutNatGrows(s[0] as int, PutCodes(s[1..]));
      AsciiNat(s[0] as int, PutCodes(s[1..]));
      assert s == [s[0]] + s[1..];
    }
  }

  ghost function ConcreteFormat(): Formats {
    Formats(Concrete(), h => EncodeHeader(h), DecodeHeader, man => EncodeManifest(man), DecodeManifest,
            files => PutList(Listed(files), ""), PutCodes, GetCodes,
            (key: string) => seq(PUBLIC_KEY_SIZE, _ => 'k'), (key: string, msg: string) => "s",
            (key: string, msg: string, sig: string) => true)
  }

  lemma HeaderRoundTrip(h: Header)
    requires h.generatedAt >= 0 && forall r | r in h.records :: r.collectedAt >= 0
    ensures EncodeHeader(h).Some?
    ensures DecodeHeader(EncodeHeader(h).value) == Some(h.(records := Norms(Concrete(), h.records)))
  {
    var b3 := PutRecords(h.records, "");
    var b2 := PutNat(h.recordCount, b3);
    var b1 := PutInt(h.generatedAt, b2);
    hide PutRecords, GetRecords, PutNat, GetNat, PutInt, GetInt, PutList, GetList, Concrete;
    GetPutRecords(h.records, "");
    GetPutNat(h.recordCount, b3);
    GetPutInt(h.generatedAt, b2);
    GetPutList([h.tool, h.framework], b1);
  }

  lemma HeaderDated(h: Header)
    ensures EncodeHeader(h).Some? ==> h.generatedAt >= 0
  {
    hide PutRecords, PutNat, PutInt, PutList;
  }

  lemma HeaderLawsHold(h: Header)
    ensures HeaderLaws(ConcreteFormat(), h)
  {
    hide DecodeHeader, EncodeHeader, Text, Compact, Marshal, PutRecords, PutNat, PutInt, PutList;
    HeaderDated(h);
    if Exportable(Concrete(), h) {
      forall r | r in h.records
        ensures r.collectedAt >= 0 && Text(Concrete(), r)
      {
        assert Concrete().encodable(r.collectedAt, r.observation);
      }
      HeaderRoundTrip(h);
      NormsExportable(h.records);
    }
  }

  lemma NormsExportable(rs: seq<Record>)
    requires forall r | r in rs :: r.collectedAt >= 0 && Text(Concrete(), r)
    ensures forall n | n in Norms(Concrete(), rs) ::
              Text(Concrete(), n) && Concrete().encodable(n.collectedAt, n.observation)
    ensures forall i | 0 <= i < |rs| :: SameButLayout(Concrete(), Norms(Concrete(), rs)[i], rs[i])
  {
    var c := Concrete();
    forall i | 0 <= i < |rs|
      ensures Text(c, Norms(c, rs)[i]) && Norms(c, rs)[i].collectedAt >= 0
      ensures SameButLayout(c, Norms(c, rs)[i], rs[i])
    {
      assert rs[i] in rs;
      RecordLawsHold(rs[i]);
      CompactIdempotent(rs[i].observation);
    }
  }

  lemma ManifestLawHolds(man: Manifest)
    ensures DecodeManifest(ManifestBytes(man)) == Some(man)
  {
    var b2 := PutList(Listed(man.files), "");
    var b1 := PutList([man.publicKey, man.signature], b2);
    GetPutList(Listed(man.files), "");
    GetPutList([man.publicKey, man.signature], b2);
    GetPutInt(man.generatedAt, b1);
    UnflatListed(man.files);
  }

  lemma FormatsConsistent()
    ensures LawfulFormats(ConcreteFormat())
  {
    var f := ConcreteFormat();
    LawsConsistent();
    forall h {:trigger HeaderLaws(f, h)} ensures HeaderLaws(f, h) { HeaderLawsHold(h); }
    forall man {:trigger ManifestLaws(f, man)} ensures ManifestLaws(f, man) { ManifestLawHolds(man); }
    forall b {:trigger Base64Laws(f, b)} ensures Base64Laws(f, b) { GetPutCodes(b); }
  }

  /** A store that its own `Append` makes impossible to open: one record whose error text is not valid.
      `Append` reports success, and the next start is refused. */
  lemma InvalidTextLocksTheStore(r: Record, path: string)
    requires r.hash == "" && r.collectedAt >= 0 && !Ascii(r.error)
    ensures var st := Runs.Created(path, map[]);
            var a := AppendSpec(Concrete(), path, st, r, "1", NoFault);
            a.err.None? && OpenSpec(Concrete(), path, a.st.disk) == Refused
  {
    hide *;
    var c, st := Concrete(), Runs.Created(path, map[]);
    LawsConsistent();
    EmptyDirectory(c, path);
    Runs.CreatedHealthy(c, path, map[]);
    AcceptsAny(r);
    Failure.ReopensIff(c, path, st, Runs.NO_HISTORY, r, "1");
    var s := Runs.SealedBy(c, st, r, "1");
    SealedText(c, st, r, "1");
    NoCollisionWithNorm(s);
    OnlyRecord(c, s);
    OpenOrRefused(OpenSpec(c, path, AppendSpec(c, path, st, r, "1", NoFault).st.disk));
  }

  lemma EmptyDirectory(c: Codec, path: string)
    ensures Runs.FreshDirectory(c, path, map[])
  {
  }

  lemma OpenOrRefused(o: Opened)
    ensures o.Open? || o == Refused
  {
  }

  lemma SealedText(c: Codec, st: State, r: Record, id: string)
    requires Lawful(c)
    ensures var s := Runs.SealedBy(c, st, r, id);
            s.error == r.error && s.collectedAt == r.collectedAt
  {
    SealExtends(c, st.lastHash, r, id);
    var s := Runs.SealedBy(c, st, r, id);
    assert Unsealed(s) == Unsealed(r).(id := s.id);
    assert Unsealed(s).error == s.error && Unsealed(r).error == r.error;
    assert Unsealed(s).collectedAt == s.collectedAt && Unsealed(r).collectedAt == r.collectedAt;
  }

  lemma OnlyRecord(c: Codec, s: Record)
    requires !Collides(c, s, c.norm(s))
    ensures var rs := History.Written(Runs.NO_HISTORY.live) + [s];
            !CollisionIn(c, rs, Norms(c, rs))
  {
    assert History.Written(Runs.NO_HISTORY.live) + [s] == [s];
  }

  lemma AcceptsAny(r: Record)
    requires r.hash == "" && r.collectedAt >= 0
    ensures Runs.Accepts(Concrete(), r)
  {
  }

  lemma NoCollisionWithNorm(s: Record)
    requires s.collectedAt >= 0 && !Ascii(s.error)
    ensures !Storable(Concrete(), s) && !Collides(Concrete(), s, Concrete().norm(s))
  {
    var c := Concrete();
    var x, y := WithHash(s, ""), WithHash(Norm(s), "");
    NormIsAscii(s);
    assert Ascii("");
    assert !AsciiRecord(x) && AsciiRecord(y) && !AsciiRecord(s);
    hide AsciiRecord, Norm, PutParts, PartsOf, Ascii;
    assert Image(c, s).value[0] == 'F' && Image(c, Norm(s)).value[0] == 'T';
    assert c.digest(Image(c, s).value)[0] == 'f' && c.digest(Image(c, Norm(s)).value)[0] == '0';
    NotText(s);
  }

  lemma NotText(s: Record)
    requires !AsciiRecord(s)
    ensures !Text(Concrete(), s)
  {
  }
}
