/** The evidence record and everything the program takes from its libraries: SHA-256, JSON and time
    formatting.

    A Go `string` and a Go `[]byte` are both a Dafny `string` here, one character per byte. The
    libraries are the fields of a `Codec`, and `Lawful` states what the program relies on. Nothing is
    assumed about SHA-256 beyond the form of its output, so every integrity theorem concludes "or
    here are two different encodings with the same digest". */
module Evidence {

  datatype Option<+T> = None | Some(value: T)

  /** Nanoseconds since the zero `time.Time`; 0 is the time for which `IsZero` holds. */
  type Time = int

  const OUTCOME_OBSERVED := "observed"
  const OUTCOME_FAILED := "collection-failed"

  datatype Target = Target(typ: string, name: string, attributes: map<string, string>)

  datatype Record = Record(
    id: string,
    collectorId: string,
    collectorVersion: string,
    target: Target,
    collectedAt: Time,
    outcome: string,
    error: string,
    observation: string,
    controlIds: seq<string>,
    prevHash: string,
    hash: string)

  /** What a rotation record says about the segment before it. */
  datatype Link = Link(head: string, count: nat)

  datatype Codec = Codec(
    digest: string -> string,                    // hex(sha256(b))
    marshal: Record -> Option<string>,           // json.Marshal; None is an error
    unmarshal: string -> Option<Record>,         // json.Unmarshal; None is an error
    norm: Record -> Record,                      // what unmarshal makes of a marshalled record
    utf8: string -> bool,                        // valid UTF-8
    compact: string -> string,                   // how json.Marshal rewrites a raw JSON message
    encodable: (Time, string) -> bool,           // json.Marshal accepts this time and raw message
    linkJson: (string, nat, string) -> string,   // the observation of a rotation record
    parseLink: string -> Option<Link>,           // reading it back
    stamp: int -> string)                        // "20060102-150405Z" of a whole second

  predicate HexDigit(ch: char) { '0' <= ch <= '9' || 'a' <= ch <= 'f' }

  predicate Hex(s: string) { forall i | 0 <= i < |s| :: HexDigit(s[i]) }

  /** ASCII is valid UTF-8; hexadecimal, base64 and this program's own names are ASCII. */
  predicate Ascii(s: string) { forall i | 0 <= i < |s| :: s[i] < 128 as char }

  function WithHash(r: Record, h: string): Record { r.(hash := h) }

  /** Every string of the record is valid UTF-8. */
  predicate Text(c: Codec, r: Record) {
    && c.utf8(r.id) && c.utf8(r.collectorId) && c.utf8(r.collectorVersion)
    && c.utf8(r.target.typ) && c.utf8(r.target.name)
    && (forall k | k in r.target.attributes :: c.utf8(k) && c.utf8(r.target.attributes[k]))
    && c.utf8(r.outcome) && c.utf8(r.error)
    && (forall i | 0 <= i < |r.controlIds| :: c.utf8(r.controlIds[i]))
    && c.utf8(r.prevHash) && c.utf8(r.hash)
  }

  /** A JSON text on one line, which `bufio.ScanLines` gives back unchanged. */
  predicate LineSafe(b: string) { b != "" && '\n' !in b && b[|b| - 1] != '\r' }

  /** What the program needs of JSON for one record. The encoder replaces invalid UTF-8, so encoding
      what was read back gives the same bytes exactly when the record was valid text. */
  ghost predicate RecordLaws(c: Codec, r: Record) {
    && (c.marshal(r).Some? <==> c.encodable(r.collectedAt, r.observation))
    && (c.marshal(r).Some? ==>
          && LineSafe(c.marshal(r).value)
          && c.unmarshal(c.marshal(r).value) == Some(c.norm(r))
          && (c.marshal(c.norm(r)) == c.marshal(r) <==> Text(c, r)))
    && (Text(c, r) ==> c.norm(r) == r.(observation := c.compact(r.observation)))
    && c.norm(r).collectedAt == r.collectedAt
    && (c.utf8(r.prevHash) ==> c.norm(r).prevHash == r.prevHash)
    && (forall h {:trigger c.norm(WithHash(r, h))} ::
          c.utf8(h) ==> c.norm(WithHash(r, h)) == WithHash(c.norm(r), h))
  }

  ghost predicate BytesLaws(c: Codec, b: string) {
    && |c.digest(b)| == 64 && Hex(c.digest(b))
    && (Ascii(b) ==> c.utf8(b))
    && (c.unmarshal(b).Some? ==> Text(c, c.unmarshal(b).value))
    && c.parseLink(c.compact(b)) == c.parseLink(b)
    && c.compact(c.compact(b)) == c.compact(b)
  }

  ghost predicate Lawful(c: Codec) {
    && (forall r {:trigger RecordLaws(c, r)} :: RecordLaws(c, r))
    && (forall b {:trigger BytesLaws(c, b)} :: BytesLaws(c, b))
    && (forall h, n, a {:trigger c.linkJson(h, n, a)} ::
          Hex(h) ==> c.parseLink(c.linkJson(h, n, a)) == Some(Link(h, n)))
    && (forall s, t {:trigger c.stamp(s), c.stamp(t)} :: c.stamp(s) == c.stamp(t) ==> s == t)
  }

  /** The bytes a record's hash covers: its encoding with the hash field cleared. */
  function Image(c: Codec, r: Record): Option<string> { c.marshal(WithHash(r, "")) }

  function ComputeHash(c: Codec, r: Record): Option<string> {
    match Image(c, r)
    case None => None
    case Some(b) => Some(c.digest(b))
  }

  /** Two different encodings with the same digest: evidence against SHA-256. */
  predicate Collides(c: Codec, x: Record, y: Record) {
    && Image(c, x).Some? && Image(c, y).Some?
    && Image(c, x) != Image(c, y)
    && ComputeHash(c, x) == ComputeHash(c, y)
  }

  /** A collision between a record of one list and a record of the other. */
  ghost predicate CollisionIn(c: Codec, xs: seq<Record>, ys: seq<Record>) {
    exists i, j :: 0 <= i < |xs| && 0 <= j < |ys| && Collides(c, xs[i], ys[j])
  }

  /** What every "or two records collide" stands for: two different texts with one digest. */
  lemma CollisionMeans(c: Codec, xs: seq<Record>, ys: seq<Record>)
    requires CollisionIn(c, xs, ys)
    ensures exists a, b :: a != b && c.digest(a) == c.digest(b)
    ensures exists x, y :: x in xs && y in ys && c.marshal(x.(hash := "")) != c.marshal(y.(hash := ""))
  {
    var i, j :| 0 <= i < |xs| && 0 <= j < |ys| && Collides(c, xs[i], ys[j]);
    assert c.digest(Image(c, xs[i]).value) == c.digest(Image(c, ys[j]).value);
    assert xs[i] in xs && ys[j] in ys;
    assert c.marshal(xs[i].(hash := "")) != c.marshal(ys[j].(hash := ""));
  }

  lemma HashForm(c: Codec, r: Record)
    requires Lawful(c) && ComputeHash(c, r).Some?
    ensures |ComputeHash(c, r).value| == 64 && c.utf8(ComputeHash(c, r).value)
    ensures Hex(ComputeHash(c, r).value)
  {
    assert BytesLaws(c, Image(c, r).value);
    assert BytesLaws(c, ComputeHash(c, r).value);
  }

  lemma EmptyIsText(c: Codec)
    requires Lawful(c)
    ensures c.utf8("")
  {
    assert BytesLaws(c, "");
  }

  /** The hash covers every field except `hash` itself: equal images are records that read back
      equal once the hash is cleared, in particular with the same link and time. */
  lemma ImageDetermines(c: Codec, x: Record, y: Record)
    requires Lawful(c) && Image(c, x).Some? && Image(c, x) == Image(c, y)
    ensures WithHash(c.norm(x), "") == WithHash(c.norm(y), "")
    ensures x.collectedAt == y.collectedAt
    ensures c.utf8(x.prevHash) && c.utf8(y.prevHash) ==> x.prevHash == y.prevHash
  {
    EmptyIsText(c);
    assert RecordLaws(c, x) && RecordLaws(c, y);
    assert RecordLaws(c, WithHash(x, "")) && RecordLaws(c, WithHash(y, ""));
  }

  /** Whether a record encodes does not depend on its links, so `json.Marshal` cannot fail on a
      record whose hash was just computed. */
  lemma EncodesAlike(c: Codec, x: Record, y: Record)
    requires Lawful(c) && x.collectedAt == y.collectedAt && x.observation == y.observation
    ensures c.marshal(x).Some? <==> c.marshal(y).Some?
  {
    assert RecordLaws(c, x) && RecordLaws(c, y);
  }
}
