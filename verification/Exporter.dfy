/** Exporting the store as a bundle. */
module Exporter {
  import opened Evidence
  import opened Chain
  import opened Integrity
  import opened LineFile
  import opened Store
  import opened Bundle

  const TOOL := "evidenced"

  function HeaderOf(framework: string, now: Time, records: seq<Record>): Header {
    Header(TOOL, framework, now, |records|, records)
  }

  /** The directory after an export: the two files and their manifest over what was there, if JSON can
      encode them. */
  function ExportSpec(f: Formats, records: seq<Record>, framework: string, key: Option<string>, now: Time,
                      report: string, before: Dir): Option<Dir>
  {
    match f.encodeHeader(HeaderOf(framework, now, records))
    case None => None
    case Some(machine) =>
      var files := map["evidence.json" := machine, "report.md" := report];
      match f.encodeManifest(ManifestOf(f, files, key, now))
      case None => None
      case Some(manifest) => Some(before + files["manifest.json" := manifest])
  }

  /** The files may be written in any order. */
  method WriteFiles(before: Dir, files: map<string, string>) returns (out: Dir)
    ensures out == before + files
  {
    out := before;
    var rest := files.Keys;
    while rest != {}
      invariant rest <= files.Keys && out.Keys == before.Keys + (files.Keys - rest)
      invariant forall name | name in out ::
                  out[name] == if name in files && name !in rest then files[name] else before[name]
      decreases |rest|
    {
      var name :| name in rest;
      out := out[name := files[name]];
      rest := rest - {name};
    }
  }

  class BundleExporter {
    const store: FileStore
    const framework: string
    const key: Option<string>
    const render: seq<Record> -> string   // the Markdown text

    constructor (store: FileStore, framework: string, key: Option<string>, render: seq<Record> -> string)
      ensures this.store == store && this.framework == framework && this.key == key && this.render == render
    {
      this.store, this.framework, this.key, this.render := store, framework, key, render;
    }

    /** Refuses a store that does not verify, and otherwise writes the bundle, in any order of its files. */
    method Export(f: Formats, now: Time, before: Dir) returns (dir: Option<Dir>)
      ensures var data := Content(store.disk.files, store.path);
              dir == if !Accepted(f.codec, data) then None else
                     var records := ReadSpec(f.codec, data).records;
                     ExportSpec(f, records, framework, key, now, render(records), before)
    {
      var res := store.All(f.codec);
      if res.Unreadable? {
        return None;
      }
      var records := res.records;
      var bad := Chain.Verify(f.codec, records);
      if bad.Some? {
        return None;
      }
      var machine := f.encodeHeader(HeaderOf(framework, now, records));
      if machine.None? {
        return None;
      }
      var files: map<string, string> := map[];
      files := files["evidence.json" := machine.value];
      files := files["report.md" := render(records)];
      assert files == map["evidence.json" := machine.value, "report.md" := render(records)];
      var man := BuildManifest(f, files, key, now);
      var manifest := f.encodeManifest(man);
      if manifest.None? {
        return None;
      }
      files := files["manifest.json" := manifest.value];
      var out := WriteFiles(before, files);
      dir := Some(out);
    }
  }

  /** Everything read from a store file is valid text. */
  lemma {:induction false} ReadIsText(c: Codec, data: string)
    requires Lawful(c) && ReadSpec(c, data).Records?
    ensures AllText(c, ReadSpec(c, data).records)
    decreases |data|
  {
    if data != "" {
      ReadIsText(c, AfterLine(data));
      assert BytesLaws(c, DropCR(FirstLine(data)));
    }
  }

  lemma AcceptedExportable(c: Codec, data: string, framework: string, now: Time)
    requires Lawful(c) && Accepted(c, data) && c.utf8(framework) && Datable(c, now)
    ensures Exportable(c, HeaderOf(framework, now, ReadSpec(c, data).records))
  {
    var records := ReadSpec(c, data).records;
    ReadIsText(c, data);
    assert BytesLaws(c, TOOL);
    forall r | r in records
      ensures c.encodable(r.collectedAt, r.observation)
    {
      var i :| 0 <= i < |records| && records[i] == r;
      VerifiedAt(c, records, i);
      assert RecordLaws(c, WithHash(r, ""));
    }
  }

  /** An evidence set that decodes to a verified chain of these records, under this framework and time. */
  ghost predicate EvidenceSet(f: Formats, records: seq<Record>, framework: string, now: Time, text: string) {
    && f.decodeHeader(text).Some?
    && var h := f.decodeHeader(text).value;
       && h.tool == "evidenced" && h.framework == framework && h.generatedAt == now
       && h.recordCount == |h.records| == |records| && Verified(f.codec, h.records)
       && forall i | 0 <= i < |records| :: SameButLayout(f.codec, h.records[i], records[i])
  }

  /** A manifest of exactly these two files, signed if there is a key. */
  predicate ManifestOfTwo(f: Formats, key: Option<string>, now: Time, evidence: string, report: string, text: string) {
    && f.decodeManifest(text).Some?
    && var man := f.decodeManifest(text).value;
       && man.generatedAt == now
       && man.files == map["evidence.json" := f.codec.digest(evidence), "report.md" := f.codec.digest(report)]
       && (key.Some? <==> man.signature != "")
       && (key.Some? ==> f.unbase64(man.publicKey) == Some(f.public(key.value)))
  }

  /** What an export leaves in the directory: the report, the evidence set and their manifest, and all other
      files as they were. */
  ghost predicate Exported(f: Formats, records: seq<Record>, framework: string, key: Option<string>, now: Time,
                           report: string, before: Dir, dir: Dir)
  {
    && dir.Keys == before.Keys + {"evidence.json", "report.md", "manifest.json"}
    && dir["report.md"] == report
    && EvidenceSet(f, records, framework, now, dir["evidence.json"])
    && ManifestOfTwo(f, key, now, dir["evidence.json"], report, dir["manifest.json"])
    && (forall name | name in before && name !in {"evidence.json", "report.md", "manifest.json"} ::
          dir[name] == before[name])
  }

  /** A store that verifies is exported exactly if JSON can express the clock's time, and an exported bundle
      passes the auditor's checks: the files match the manifest, the signature is good, and the evidence
      set reads back with an accepted chain of the store's records, which only differ in the layout of
      their raw JSON. */
  lemma ExportChecks(f: Formats, data: string, framework: string, key: Option<string>, now: Time, report: string,
                     before: Dir)
    requires LawfulFormats(f) && Accepted(f.codec, data) && f.codec.utf8(framework)
    ensures var records := ReadSpec(f.codec, data).records;
            var dir := ExportSpec(f, records, framework, key, now, report, before);
            && (dir.Some? <==> Datable(f.codec, now))
            && (dir.Some? ==>
                  Intact(f, dir.value) && Exported(f, records, framework, key, now, report, before, dir.value))
  {
    hide *;
    AcceptedRecords(f.codec, data);
    FormatsLawful(f);
    var records := ReadSpec(f.codec, data).records;
    ExportNeedsTime(f, records, framework, key, now, report, before);
    if Datable(f.codec, now) {
      AcceptedExportable(f.codec, data, framework, now);
      SetReadsBack(f, records, framework, now);
      var machine := f.encodeHeader(HeaderOf(framework, now, records)).value;
      var files := map["evidence.json" := machine, "report.md" := report];
      TwoPlain(f, machine, report, key, now);
      ManifestReads(f, machine, report, key, now);
      WrittenIsIntact(f, before, files, key, now);
      Written(f, records, framework, key, now, report, before);
    }
  }

  lemma ExportNeedsTime(f: Formats, records: seq<Record>, framework: string, key: Option<string>, now: Time,
                        report: string, before: Dir)
    requires LawfulFormats(f)
    ensures ExportSpec(f, records, framework, key, now, report, before).Some? ==> Datable(f.codec, now)
  {
    assert HeaderLaws(f, HeaderOf(framework, now, records));
    hide LawfulFormats, Exportable, HeadersAgree, Datable, ManifestOf;
  }

  /** Both files have plain names, and their manifest can be encoded. */
  lemma TwoPlain(f: Formats, machine: string, report: string, key: Option<string>, now: Time)
    requires LawfulFormats(f) && Datable(f.codec, now)
    ensures var files := map["evidence.json" := machine, "report.md" := report];
            PlainNames(files) && f.encodeManifest(ManifestOf(f, files, key, now)).Some?
  {
    hide *;
    TwoPlainNames(machine, report);
    TwoListed(f, machine, report, key, now);
    ManifestEncodes(f, ManifestOf(f, map["evidence.json" := machine, "report.md" := report], key, now));
  }

  lemma TwoPlainNames(machine: string, report: string)
    ensures PlainNames(map["evidence.json" := machine, "report.md" := report])
  {
    NamesArePlain();
    hide Ascii;
  }

  lemma ManifestEncodes(f: Formats, man: Manifest)
    requires LawfulFormats(f)
    ensures f.encodeManifest(man).Some? <==> Datable(f.codec, man.generatedAt)
  {
    assert ManifestLaws(f, man);
  }

  lemma FormatsLawful(f: Formats)
    requires LawfulFormats(f)
    ensures Lawful(f.codec)
  {
    hide Lawful;
  }

  /** The evidence set as written reads back with its chain. */
  lemma SetReadsBack(f: Formats, records: seq<Record>, framework: string, now: Time)
    requires LawfulFormats(f) && Exportable(f.codec, HeaderOf(framework, now, records)) && Verified(f.codec, records)
    ensures var machine := f.encodeHeader(HeaderOf(framework, now, records));
            machine.Some? && EvidenceSet(f, records, framework, now, machine.value)
  {
    var header := HeaderOf(framework, now, records);
    assert HeaderLaws(f, header);
    var h := f.decodeHeader(f.encodeHeader(header).value).value;
    forall i | 0 <= i < |records|
      ensures f.codec.encodable(h.records[i].collectedAt, h.records[i].observation)
    {
      assert h.records[i] in h.records;
    }
    LayoutKeepsChain(f.codec, h.records, records);
  }

  /** The manifest as written reads back. */
  lemma ManifestReads(f: Formats, machine: string, report: string, key: Option<string>, now: Time)
    requires LawfulFormats(f)
    requires f.encodeManifest(ManifestOf(f, map["evidence.json" := machine, "report.md" := report], key, now)).Some?
    ensures var man := ManifestOf(f, map["evidence.json" := machine, "report.md" := report], key, now);
            ManifestOfTwo(f, key, now, machine, report, f.encodeManifest(man).value)
  {
    hide ManifestOf, PlainManifest, Ascii, LawfulFormats;
    var files := map["evidence.json" := machine, "report.md" := report];
    NamesArePlain();
    ManifestIsPlain(f, files, key, now);
    ManifestDecodes(f, ManifestOf(f, files, key, now));
    TwoListed(f, machine, report, key, now);
    if key.Some? {
      ManifestSigned(f, files, key.value, now);
    }
  }

  lemma ManifestDecodes(f: Formats, man: Manifest)
    requires LawfulFormats(f) && PlainManifest(man) && f.encodeManifest(man).Some?
    ensures f.decodeManifest(f.encodeManifest(man).value) == Some(man)
  {
    assert ManifestLaws(f, man);
  }

  lemma TwoListed(f: Formats, machine: string, report: string, key: Option<string>, now: Time)
    ensures var man := ManifestOf(f, map["evidence.json" := machine, "report.md" := report], key, now);
            && man.files == map["evidence.json" := f.codec.digest(machine), "report.md" := f.codec.digest(report)]
            && man.generatedAt == now && (key.None? ==> man.signature == "")
  {
  }

  lemma Written(f: Formats, records: seq<Record>, framework: string, key: Option<string>, now: Time, report: string,
                before: Dir)
    requires var machine := f.encodeHeader(HeaderOf(framework, now, records));
             && machine.Some? && EvidenceSet(f, records, framework, now, machine.value)
             && var files := map["evidence.json" := machine.value, "report.md" := report];
                var text := f.encodeManifest(ManifestOf(f, files, key, now));
                text.Some? && ManifestOfTwo(f, key, now, machine.value, report, text.value)
    ensures var dir := ExportSpec(f, records, framework, key, now, report, before);
            dir.Some? && Exported(f, records, framework, key, now, report, before, dir.value)
    ensures var files := map["evidence.json" := f.encodeHeader(HeaderOf(framework, now, records)).value,
                             "report.md" := report];
            ExportSpec(f, records, framework, key, now, report, before)
            == Some(before + files["manifest.json" := f.encodeManifest(ManifestOf(f, files, key, now)).value])
  {
    hide ManifestOf, EvidenceSet, ManifestOfTwo;
  }

  /** Changing or removing either file of an exported bundle is detected, or the old and the new content have
      the same digest. */
  lemma ExportedChangeDetected(f: Formats, data: string, framework: string, key: Option<string>, now: Time,
                               report: string, before: Dir, changed: Dir, name: string)
    requires LawfulFormats(f) && Accepted(f.codec, data) && f.codec.utf8(framework)
    requires ExportSpec(f, ReadSpec(f.codec, data).records, framework, key, now, report, before).Some?
    requires var dir := ExportSpec(f, ReadSpec(f.codec, data).records, framework, key, now, report, before).value;
             && name in {"evidence.json", "report.md"} && name in dir && "manifest.json" in dir
             && "manifest.json" in changed && changed["manifest.json"] == dir["manifest.json"]
             && (name in changed ==> changed[name] != dir[name])
    ensures var dir := ExportSpec(f, ReadSpec(f.codec, data).records, framework, key, now, report, before).value;
            || !Intact(f, changed)
            || (name in changed && f.codec.digest(changed[name]) == f.codec.digest(dir[name]))
  {
    ExportChecks(f, data, framework, key, now, report, before);
    NamesArePlain();
    PlainBase(name);
    var dir := ExportSpec(f, ReadSpec(f.codec, data).records, framework, key, now, report, before).value;
    hide LawfulFormats, Accepted, ExportSpec, ReadSpec, Intact;
    ChangeDetected(f, dir, changed, name);
  }

  lemma NamesArePlain()
    ensures '/' !in "evidence.json" && Ascii("evidence.json")
    ensures '/' !in "report.md" && Ascii("report.md")
  {
  }
}
