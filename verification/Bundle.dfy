/** The export bundle: evidence, report and a checksummed, optionally signed manifest. */
module Bundle {
  import opened Evidence
  import opened Chain
  import opened Integrity
  import opened LineFile
  import opened Paths

  datatype Header = Header(tool: string, framework: string, generatedAt: Time, recordCount: nat, records: seq<Record>)

  datatype Manifest = Manifest(generatedAt: Time, files: map<string, string>, publicKey: string, signature: string)

  /** The libraries a bundle goes through: indented JSON, base64 and Ed25519. */
  datatype Formats = Formats(
    codec: Codec,
    encodeHeader: Header -> Option<string>,
    decodeHeader: string -> Option<Header>,
    encodeManifest: Manifest -> Option<string>,
    decodeManifest: string -> Option<Manifest>,
    filesJson: map<string, string> -> string,
    base64: string -> string,
    unbase64: string -> Option<string>,
    public: string -> string,
    sign: (string, string) -> string,
    checks: (string, string, string) -> bool)

  const PUBLIC_KEY_SIZE := 32

  /** The same record with its raw JSON laid out differently, as indenting does. */
  predicate SameButLayout(c: Codec, x: Record, y: Record) {
    x == y.(observation := x.observation) && c.compact(x.observation) == c.compact(y.observation)
  }

  predicate HeadersAgree(c: Codec, x: Header, y: Header) {
    && x == y.(records := x.records) && |x.records| == |y.records|
    && forall i | 0 <= i < |y.records| :: SameButLayout(c, x.records[i], y.records[i])
  }

  predicate PlainManifest(man: Manifest) {
    && (forall name | name in man.files :: Ascii(name) && Ascii(man.files[name]))
    && Ascii(man.publicKey) && Ascii(man.signature)
  }

  /** JSON can express this time: the year has at most four digits. */
  predicate Datable(c: Codec, t: Time) { c.encodable(t, "null") }

  predicate Exportable(c: Codec, h: Header) {
    && Datable(c, h.generatedAt) && AllText(c, h.records) && c.utf8(h.tool) && c.utf8(h.framework)
    && forall r | r in h.records :: c.encodable(r.collectedAt, r.observation)
  }

  /** A header of encodable times and text is read back as written, up to the layout of the raw JSON. */
  ghost predicate HeaderLaws(f: Formats, h: Header) {
    && (f.encodeHeader(h).Some? ==> Datable(f.codec, h.generatedAt))
    && (Exportable(f.codec, h) ==>
          && f.encodeHeader(h).Some?
          && f.decodeHeader(f.encodeHeader(h).value).Some?
          && HeadersAgree(f.codec, f.decodeHeader(f.encodeHeader(h).value).value, h)
          && Exportable(f.codec, f.decodeHeader(f.encodeHeader(h).value).value))
  }

  /** A manifest encodes if its time does, and plain text in it is read back. */
  ghost predicate ManifestLaws(f: Formats, man: Manifest) {
    && (f.encodeManifest(man).Some? <==> Datable(f.codec, man.generatedAt))
    && (PlainManifest(man) && f.encodeManifest(man).Some? ==>
          f.decodeManifest(f.encodeManifest(man).value) == Some(man))
  }

  ghost predicate SigningLaws(f: Formats, key: string, msg: string) {
    && |f.public(key)| == PUBLIC_KEY_SIZE && f.sign(key, msg) != ""
    && f.checks(f.public(key), msg, f.sign(key, msg))
  }

  ghost predicate Base64Laws(f: Formats, b: string) {
    f.unbase64(f.base64(b)) == Some(b) && Ascii(f.base64(b)) && (b != "" ==> f.base64(b) != "")
  }

  ghost predicate LawfulFormats(f: Formats) {
    && Lawful(f.codec)
    && (forall h {:trigger HeaderLaws(f, h)} :: HeaderLaws(f, h))
    && (forall man {:trigger ManifestLaws(f, man)} :: ManifestLaws(f, man))
    && (forall key, msg {:trigger SigningLaws(f, key, msg)} :: SigningLaws(f, key, msg))
    && (forall b {:trigger Base64Laws(f, b)} :: Base64Laws(f, b))
  }

  function Sums(f: Formats, files: map<string, string>): map<string, string> {
    map name | name in files :: f.codec.digest(files[name])
  }

  function ManifestOf(f: Formats, files: map<string, string>, key: Option<string>, now: Time): Manifest {
    var sums := Sums(f, files);
    match key
    case None => Manifest(now, sums, "", "")
    case Some(k) => Manifest(now, sums, f.base64(f.public(k)), f.base64(f.sign(k, f.filesJson(sums))))
  }

  /** The file map may be ranged over in any order. */
  method BuildManifest(f: Formats, files: map<string, string>, key: Option<string>, now: Time) returns (man: Manifest)
    ensures man == ManifestOf(f, files, key, now)
    ensures man.generatedAt == now && man.files.Keys == files.Keys
    ensures forall name | name in files :: man.files[name] == f.codec.digest(files[name])
    ensures key.None? ==> man.publicKey == "" && man.signature == ""
    ensures key.Some? ==> man.publicKey == f.base64(f.public(key.value))
    ensures key.Some? ==> man.signature == f.base64(f.sign(key.value, f.filesJson(man.files)))
  {
    var sums: map<string, string> := map[];
    var rest := files.Keys;
    while rest != {}
      invariant rest <= files.Keys && sums.Keys == files.Keys - rest
      invariant forall name | name in sums :: sums[name] == f.codec.digest(files[name])
      decreases |rest|
    {
      var name :| name in rest;
      sums := sums[name := f.codec.digest(files[name])];
      rest := rest - {name};
    }
    assert sums == Sums(f, files);
    man := Manifest(now, sums, "", "");
    if key.Some? {
      var signed := f.filesJson(man.files);
      man := man.(signature := f.base64(f.sign(key.value, signed)));
      man := man.(publicKey := f.base64(f.public(key.value)));
    }
  }

  /** A bundle directory: file name to content. */
  type Dir = map<string, string>

  function ReadManifest(f: Formats, dir: Dir): Option<Manifest> {
    if "manifest.json" in dir then f.decodeManifest(dir["manifest.json"]) else None
  }

  predicate FileMatches(f: Formats, dir: Dir, name: string, sum: string) {
    Base(name) in dir && f.codec.digest(dir[Base(name)]) == sum
  }

  predicate SignatureValid(f: Formats, man: Manifest) {
    man.signature == "" ||
    (&& f.unbase64(man.publicKey).Some? && |f.unbase64(man.publicKey).value| == PUBLIC_KEY_SIZE
     && f.unbase64(man.signature).Some?
     && f.checks(f.unbase64(man.publicKey).value, f.filesJson(man.files), f.unbase64(man.signature).value))
  }

  /** The bundle's files are those the manifest lists, and its signature, if any, is good. */
  predicate Intact(f: Formats, dir: Dir) {
    && ReadManifest(f, dir).Some?
    && (forall name | name in ReadManifest(f, dir).value.files ::
          FileMatches(f, dir, name, ReadManifest(f, dir).value.files[name]))
    && SignatureValid(f, ReadManifest(f, dir).value)
  }

  method Verify(f: Formats, dir: Dir) returns (ok: bool)
    ensures ok <==> Intact(f, dir)
  {
    var manifest := ReadManifest(f, dir);
    if manifest.None? {
      return false;
    }
    var man := manifest.value;
    var rest := man.files.Keys;
    while rest != {}
      invariant rest <= man.files.Keys
      invariant forall name | name in man.files && name !in rest :: FileMatches(f, dir, name, man.files[name])
      decreases |rest|
    {
      var name :| name in rest;
      if Base(name) !in dir {
        return false;
      }
      if f.codec.digest(dir[Base(name)]) != man.files[name] {
        return false;
      }
      rest := rest - {name};
    }
    if man.signature != "" {
      var pub := f.unbase64(man.publicKey);
      if pub.None? || |pub.value| != PUBLIC_KEY_SIZE {
        return false;
      }
      var sig := f.unbase64(man.signature);
      if sig.None? {
        return false;
      }
      if !f.checks(pub.value, f.filesJson(man.files), sig.value) {
        return false;
      }
    }
    ok := true;
  }

  /** `Read`: the evidence set of a bundle, if its chain verifies. */
  method Read(f: Formats, dir: Dir) returns (h: Option<Header>)
    ensures h.Some? <==>
              && "evidence.json" in dir && f.decodeHeader(dir["evidence.json"]).Some?
              && Chain.Verified(f.codec, f.decodeHeader(dir["evidence.json"]).value.records)
    ensures h.Some? ==> h == f.decodeHeader(dir["evidence.json"])
  {
    if "evidence.json" !in dir {
      return None;
    }
    h := f.decodeHeader(dir["evidence.json"]);
    if h.None? {
      return None;
    }
    var bad := Chain.Verify(f.codec, h.value.records);
    if bad.Some? {
      return None;
    }
  }

  /** What an accepted bundle is: its manifest decodes, every file it lists is there with the digest listed,
      and a manifest that carries a signature carries a key of 32 bytes under which the signature checks over
      exactly the list of files. */
  lemma IntactMeans(f: Formats, dir: Dir)
    ensures Intact(f, dir) <==>
              && "manifest.json" in dir && f.decodeManifest(dir["manifest.json"]).Some?
              && var man := f.decodeManifest(dir["manifest.json"]).value;
                 && (forall name | name in man.files ::
                       Base(name) in dir && f.codec.digest(dir[Base(name)]) == man.files[name])
                 && (man.signature != "" ==>
                       && f.unbase64(man.publicKey).Some? && |f.unbase64(man.publicKey).value| == 32
                       && f.unbase64(man.signature).Some?
                       && f.checks(f.unbase64(man.publicKey).value, f.filesJson(man.files),
                                   f.unbase64(man.signature).value))
  {
  }

  /** A signed manifest whose list of files was changed, with the signature and the key kept, is refused
      unless the old signature checks over the new list. */
  lemma ForgedList(f: Formats, man: Manifest, files: map<string, string>, dir: Dir)
    requires man.signature != "" && ReadManifest(f, dir) == Some(man.(files := files))
    ensures Intact(f, dir) ==>
              && f.unbase64(man.publicKey).Some? && |f.unbase64(man.publicKey).value| == 32
              && f.unbase64(man.signature).Some?
              && f.checks(f.unbase64(man.publicKey).value, f.filesJson(files), f.unbase64(man.signature).value)
  {
    IntactMeans(f, dir);
  }

  /** A manifest built with a key is signed: its signature is there and checks under that key over the
      digests of the files. */
  lemma ManifestSigned(f: Formats, files: map<string, string>, key: string, now: Time)
    requires LawfulFormats(f)
    ensures var man := ManifestOf(f, files, Some(key), now);
            && man.signature != "" && f.unbase64(man.publicKey) == Some(f.public(key)) && |f.public(key)| == 32
            && f.unbase64(man.signature).Some?
            && f.checks(f.public(key), f.filesJson(man.files), f.unbase64(man.signature).value)
  {
    var msg := f.filesJson(ManifestOf(f, files, Some(key), now).files);
    assert SigningLaws(f, key, msg);
    assert Base64Laws(f, f.public(key)) && Base64Laws(f, f.sign(key, msg));
  }

  lemma PlainBase(name: string)
    requires name != "" && '/' !in name
    ensures Base(name) == name
  {
    assert name[|name| - 1] in name;
    NoSlashLast(name, |name|);
  }

  lemma {:induction false} NoSlashLast(name: string, i: nat)
    requires '/' !in name && i <= |name|
    ensures LastElement(name, i) == name
  {
    if i > 0 {
      assert name[i - 1] in name;
      NoSlashLast(name, i - 1);
    }
  }

  /** Every file a bundle holds has a plain name. */
  predicate PlainNames(files: map<string, string>) {
    forall name | name in files :: name != "" && '/' !in name && Ascii(name) && name != "manifest.json"
  }

  lemma ManifestIsPlain(f: Formats, files: map<string, string>, key: Option<string>, now: Time)
    requires LawfulFormats(f) && PlainNames(files)
    ensures PlainManifest(ManifestOf(f, files, key, now))
  {
    var man := ManifestOf(f, files, key, now);
    forall name | name in man.files
      ensures Ascii(name) && Ascii(man.files[name])
    {
      assert BytesLaws(f.codec, files[name]);
    }
    match key {
      case None =>
      case Some(k) =>
        assert SigningLaws(f, k, f.filesJson(man.files));
        assert Base64Laws(f, f.public(k)) && Base64Laws(f, f.sign(k, f.filesJson(man.files)));
    }
  }

  /** A bundle is accepted as written: over the files listed, with or without a key, and whatever else the
      directory held before. */
  lemma WrittenIsIntact(f: Formats, before: Dir, files: map<string, string>, key: Option<string>, now: Time)
    requires LawfulFormats(f) && PlainNames(files) && f.encodeManifest(ManifestOf(f, files, key, now)).Some?
    ensures Intact(f, before + files["manifest.json" := f.encodeManifest(ManifestOf(f, files, key, now)).value])
  {
    var man := ManifestOf(f, files, key, now);
    ManifestIsPlain(f, files, key, now);
    assert ManifestLaws(f, man);
    var dir := before + files["manifest.json" := f.encodeManifest(man).value];
    forall name | name in man.files
      ensures FileMatches(f, dir, name, man.files[name])
    {
      PlainBase(name);
    }
    if key.Some? {
      ManifestSigned(f, files, key.value, now);
    }
  }

  /** Laying out the raw JSON differently changes no hash. */
  lemma LayoutKeepsImages(c: Codec, x: Record, y: Record)
    requires Lawful(c) && Text(c, x) && Text(c, y) && SameButLayout(c, x, y)
    requires Image(c, y).Some? && c.encodable(x.collectedAt, x.observation)
    ensures Image(c, x) == Image(c, y)
  {
    EmptyIsText(c);
    var x0, y0 := WithHash(x, ""), WithHash(y, "");
    assert RecordLaws(c, x0) && RecordLaws(c, y0);
    assert c.norm(x0) == c.norm(y0);
  }

  /** So a chain is accepted in a bundle as it was in the store. */
  lemma {:induction false} LayoutKeepsChain(c: Codec, xs: seq<Record>, ys: seq<Record>)
    requires Lawful(c) && |xs| == |ys| && Chain.Verified(c, ys) && AllText(c, xs) && AllText(c, ys)
    requires forall i | 0 <= i < |ys| ::
               SameButLayout(c, xs[i], ys[i]) && c.encodable(xs[i].collectedAt, xs[i].observation)
    ensures Chain.Verified(c, xs)
  {
    forall i | 0 <= i < |xs|
      ensures LinkedAt(c, xs, i)
    {
      assert LinkedAt(c, ys, i) && xs[i] in xs && ys[i] in ys;
      VerifiedAt(c, ys, i);
      LayoutKeepsImages(c, xs[i], ys[i]);
      assert PrevAt(xs, i) == PrevAt(ys, i);
    }
  }

  /** Changing the content of any listed file is detected, or the two contents collide. */
  lemma ChangeDetected(f: Formats, dir: Dir, changed: Dir, name: string)
    requires Intact(f, dir) && "manifest.json" in changed && changed["manifest.json"] == dir["manifest.json"]
    requires name in ReadManifest(f, dir).value.files
    requires Base(name) in changed ==> changed[Base(name)] != dir[Base(name)]
    ensures || !Intact(f, changed)
            || (Base(name) in changed && f.codec.digest(changed[Base(name)]) == f.codec.digest(dir[Base(name)]))
  {
    assert FileMatches(f, dir, name, ReadManifest(f, dir).value.files[name]);
    if Intact(f, changed) {
      assert FileMatches(f, changed, name, ReadManifest(f, changed).value.files[name]);
    }
  }
}
