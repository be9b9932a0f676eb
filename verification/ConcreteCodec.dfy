/** A concrete encoding that satisfies `Lawful`: the laws asked of SHA-256, JSON and time formatting are
    consistent, with records that fail to encode, with text that is not valid, and with raw JSON that is
    rewritten. Valid text is ASCII here, invalid text reads back as nothing, compacting removes spaces. */
module ConcreteCodec {
  import opened Evidence
  import opened Ordering

  // Writing a value in front of what follows, and reading it off again.

  function PutStr(s: string, rest: string): string {
    if s == "" then [';'] + rest
    else (match s[0]
          case '\n' => ['\\', 'n']
          case '\\' => ['\\', 'b']
          case ';' => ['\\', 's']
          case ch => [ch]) + PutStr(s[1..], rest)
  }

  datatype Got<T> = Nothing | Got(value: T, rest: string)

  function GetStr(b: string): Got<string> {
    if b == "" then Nothing
    else if b[0] == ';' then Got("", b[1..])
    else if b[0] == '\\' then
      if |b| < 2 then Nothing else
      var more := GetStr(b[2..]);
      var ch := match b[1] case 'n' => '\n' case 'b' => '\\' case 's' => ';' case _ => '?';
      if more.Nothing? then Nothing else Got([ch] + more.value, more.rest)
    else
      var more := GetStr(b[1..]);
      if more.Nothing? then Nothing else Got([b[0]] + more.value, more.rest)
  }

  lemma {:induction false} GetPutStr(s: string, rest: string)
    ensures GetStr(PutStr(s, rest)) == Got(s, rest)
  {
    if s != "" {
      GetPutStr(s[1..], rest);
      var tail := PutStr(s[1..], rest);
      var b := PutStr(s, rest);
      if s[0] == '\n' || s[0] == '\\' || s[0] == ';' {
        assert b[2..] == tail;
      } else {
        assert b[1..] == tail;
      }
      assert s == [s[0]] + s[1..];
    }
  }

  /** Ends in a closing brace and holds no newline. */
  predicate Closes(b: string) { b != "" && '\n' !in b && b[|b| - 1] == '}' }

  lemma {:induction false} PutStrCloses(s: string, rest: string)
    requires Closes(rest)
    ensures Closes(PutStr(s, rest))
  {
    if s != "" {
      PutStrCloses(s[1..], rest);
    }
  }

  function PutNat(n: nat, rest: string): string {
    if n == 0 then [';'] + rest else ['1'] + PutNat(n - 1, rest)
  }

  function GetNat(b: string): Got<nat> {
    if b == "" then Nothing
    else if b[0] == ';' then Got(0, b[1..])
    else var more := GetNat(b[1..]);
      if more.Nothing? then Nothing else Got(more.value + 1, more.rest)
  }

  lemma {:induction false} GetPutNat(n: nat, rest: string)
    ensures GetNat(PutNat(n, rest)) == Got(n, rest)
    ensures Closes(rest) ==> Closes(PutNat(n, rest))
    ensures ' ' !in rest ==> ' ' !in PutNat(n, rest)
  {
    if n > 0 {
      GetPutNat(n - 1, rest);
      assert PutNat(n, rest)[1..] == PutNat(n - 1, rest);
    }
  }

  function PutList(xs: seq<string>, rest: string): string {
    if xs == [] then ['e'] + rest else ['x'] + PutStr(xs[0], PutList(xs[1..], rest))
  }

  function GetList(b: string): Got<seq<string>>
    decreases |b|
  {
    if b == "" then Nothing
    else if b[0] == 'e' then Got([], b[1..])
    else
      var x := GetStr(b[1..]);
      if x.Nothing? || |x.rest| >= |b| then Nothing else
      var more := GetList(x.rest);
      if more.Nothing? then Nothing else Got([x.value] + more.value, more.rest)
  }

  lemma {:induction false} PutStrGrows(s: string, rest: string)
    ensures |PutStr(s, rest)| > |rest|
  {
    if s != "" {
      PutStrGrows(s[1..], rest);
    }
  }

  lemma {:induction false} GetPutList(xs: seq<string>, rest: string)
    ensures GetList(PutList(xs, rest)) == Got(xs, rest)
  {
    hide PutStr, GetStr;
    var b := PutList(xs, rest);
    if xs == [] {
      assert b[1..] == rest;
    } else {
      var tail := PutList(xs[1..], rest);
      GetPutList(xs[1..], rest);
      GetPutStr(xs[0], tail);
      PutStrGrows(xs[0], tail);
      assert b[1..] == PutStr(xs[0], tail);
      assert xs == [xs[0]] + xs[1..];
    }
  }

  lemma {:induction false} PutListCloses(xs: seq<string>, rest: string)
    requires Closes(rest)
    ensures Closes(PutList(xs, rest))
  {
    hide PutStr;
    if xs != [] {
      PutListCloses(xs[1..], rest);
      PutStrCloses(xs[0], PutList(xs[1..], rest));
    }
  }

  predicate AllAscii(xs: seq<string>) { forall i | 0 <= i < |xs| :: Ascii(xs[i]) }

  predicate AsciiMap(m: map<string, string>) { forall k | k in m :: Ascii(k) && Ascii(m[k]) }

  /** Keys and values in turn. */
  function Flat(m: map<string, string>, keys: seq<string>): seq<string>
    requires forall i | 0 <= i < |keys| :: keys[i] in m
  {
    if keys == [] then [] else [keys[0], m[keys[0]]] + Flat(m, keys[1..])
  }

  function Unflat(xs: seq<string>): map<string, string> {
    if |xs| < 2 then map[] else Unflat(xs[2..])[xs[0] := xs[1]]
  }

  lemma {:induction false} UnflatFlat(m: map<string, string>, keys: seq<string>)
    requires forall i | 0 <= i < |keys| :: keys[i] in m
    ensures Unflat(Flat(m, keys)) == map k | k in Elements(keys) && k in m :: m[k]
  {
    if keys != [] {
      UnflatFlat(m, keys[1..]);
      assert Flat(m, keys)[2..] == Flat(m, keys[1..]);
      assert keys == [keys[0]] + keys[1..];
      assert Elements(keys) == {keys[0]} + Elements(keys[1..]);
    }
  }

  ghost function Listed(m: map<string, string>): seq<string> {
    SortedListSorts(m.Keys);
    var keys := SortedList(m.Keys);
    assert forall i | 0 <= i < |keys| :: keys[i] in Elements(keys);
    Flat(m, keys)
  }

  lemma UnflatListed(m: map<string, string>)
    ensures Unflat(Listed(m)) == m
  {
    SortedListSorts(m.Keys);
    hide Increasing, SortedList;
    var keys := SortedList(m.Keys);
    assert forall i | 0 <= i < |keys| :: keys[i] in Elements(keys);
    UnflatFlat(m, keys);
    hide Unflat, Flat, Elements;
    assert m == map k | k in m.Keys && k in m :: m[k];
  }

  function Compact(s: string): string {
    if s == "" then "" else (if s[0] == ' ' then [] else [s[0]]) + Compact(s[1..])
  }

  lemma {:induction false} CompactIdempotent(s: string)
    ensures ' ' !in Compact(s) && Compact(Compact(s)) == Compact(s)
    ensures ' ' !in s ==> Compact(s) == s
  {
    if s != "" {
      CompactIdempotent(s[1..]);
      if s[0] != ' ' {
        assert Compact(s)[0] == s[0] && Compact(s)[1..] == Compact(s[1..]);
      } else {
        assert Compact(s) == Compact(s[1..]);
      }
    }
  }

  // Records.

  function Scrub(s: string): string { if Ascii(s) then s else "" }

  predicate AsciiRecord(r: Record) {
    && Ascii(r.id) && Ascii(r.collectorId) && Ascii(r.collectorVersion)
    && Ascii(r.target.typ) && Ascii(r.target.name) && AsciiMap(r.target.attributes)
    && Ascii(r.outcome) && Ascii(r.error) && AllAscii(r.controlIds) && Ascii(r.prevHash) && Ascii(r.hash)
  }

  function Norm(r: Record): Record {
    Record(Scrub(r.id), Scrub(r.collectorId), Scrub(r.collectorVersion),
           Target(Scrub(r.target.typ), Scrub(r.target.name),
                  if AsciiMap(r.target.attributes) then r.target.attributes else map[]),
           r.collectedAt, Scrub(r.outcome), Scrub(r.error), Compact(r.observation),
           if AllAscii(r.controlIds) then r.controlIds else [], Scrub(r.prevHash), Scrub(r.hash))
  }

  /** The string fields in order, as a list. */
  function Strings(r: Record): seq<string> {
    [r.id, r.collectorId, r.collectorVersion, r.target.typ, r.target.name,
     r.outcome, r.error, r.observation, r.prevHash, r.hash]
  }

  datatype Parts = Parts(at: nat, fields: seq<string>, controlIds: seq<string>, attributes: seq<string>)

  function PutParts(p: Parts, rest: string): string {
    PutNat(p.at, PutList(p.fields, PutList(p.controlIds, PutList(p.attributes, rest))))
  }

  function GetParts(b: string): Got<Parts> {
    var at := GetNat(b);
    if at.Nothing? then Nothing else
    var fields := GetList(at.rest);
    if fields.Nothing? then Nothing else
    var ids := GetList(fields.rest);
    if ids.Nothing? then Nothing else
    var m := GetList(ids.rest);
    if m.Nothing? then Nothing else Got(Parts(at.value, fields.value, ids.value, m.value), m.rest)
  }

  lemma GetPutParts(p: Parts, rest: string)
    ensures GetParts(PutParts(p, rest)) == Got(p, rest)
    ensures Closes(rest) ==> Closes(PutParts(p, rest))
  {
    var b3 := PutList(p.attributes, rest);
    var b2 := PutList(p.controlIds, b3);
    var b1 := PutList(p.fields, b2);
    GetPutList(p.attributes, rest);
    GetPutList(p.controlIds, b3);
    GetPutList(p.fields, b2);
    GetPutNat(p.at, b1);
    if Closes(rest) {
      PutListCloses(p.attributes, rest);
      PutListCloses(p.controlIds, b3);
      PutListCloses(p.fields, b2);
    }
  }

  ghost function PartsOf(r: Record): Parts
    requires r.collectedAt >= 0
  {
    Parts(r.collectedAt, Strings(r), r.controlIds, Listed(r.target.attributes))
  }

  function RecordOf(p: Parts): Record
    requires |p.fields| == 10
  {
    var f := p.fields;
    Record(f[0], f[1], f[2], Target(f[3], f[4], Unflat(p.attributes)), p.at, f[5], f[6], f[7], p.controlIds, f[8], f[9])
  }

  lemma RecordOfParts(r: Record)
    requires r.collectedAt >= 0
    ensures RecordOf(PartsOf(r)) == r
  {
    UnflatListed(r.target.attributes);
  }

  /** The normal form of a record in front of what follows, marked by whether its text was valid. */
  ghost function PutRecord(r: Record, rest: string): string
    requires r.collectedAt >= 0
  {
    [if AsciiRecord(r) then 'T' else 'F'] + PutParts(PartsOf(Norm(r)), rest)
  }

  function GetRecord(b: string): Got<Record> {
    if b == "" then Nothing else
    var p := GetParts(b[1..]);
    if p.Nothing? || |p.value.fields| != 10 || !AsciiRecord(RecordOf(p.value)) then Nothing
    else Got(RecordOf(p.value), p.rest)
  }

  lemma GetPutRecord(r: Record, rest: string)
    requires r.collectedAt >= 0
    ensures GetRecord(PutRecord(r, rest)) == Got(Norm(r), rest)
    ensures Closes(rest) ==> Closes(PutRecord(r, rest))
  {
    NormIsAscii(r);
    hide Norm, AsciiRecord, PutParts, GetParts, RecordOf, Strings, Closes, Listed;
    var p := PartsOf(Norm(r));
    RecordOfParts(Norm(r));
    GetPutParts(p, rest);
    hide PartsOf;
    assert PutRecord(r, rest)[1..] == PutParts(p, rest);
    if Closes(rest) {
      ClosesCons(if AsciiRecord(r) then 'T' else 'F', PutParts(p, rest));
    }
  }

  lemma ClosesCons(ch: char, b: string)
    requires Closes(b) && ch != '\n'
    ensures Closes([ch] + b)
  {
  }

  lemma NormIsAscii(r: Record)
    ensures AsciiRecord(Norm(r)) && Norm(r).collectedAt == r.collectedAt
    ensures |Strings(Norm(r))| == 10
  {
  }

  ghost function Marshal(r: Record): Option<string> {
    if r.collectedAt < 0 then None else Some(PutRecord(r, "}"))
  }

  function Unmarshal(b: string): Option<Record> {
    var got := GetRecord(b);
    if got.Nothing? then None else Some(got.value)
  }

  function Digest(b: string): string { seq(64, _ => if b != "" && b[0] == 'F' then 'f' else '0') }

  function LinkJson(head: string, count: nat, archive: string): string { PutNat(count, PutStr(head, "")) }

  function ParseLink(b: string): Option<Link> {
    var n := GetNat(Compact(b));
    if n.Nothing? then None else
    var h := GetStr(n.rest);
    if h.Nothing? then None else Some(Link(h.value, n.value))
  }

  function Stamp(s: int): string { if s < 0 then ['-'] + PutNat(-s, "") else PutNat(s, "") }

  ghost function Concrete(): Codec {
    Codec(Digest, r => Marshal(r), Unmarshal, Norm, (s: string) => Ascii(s), Compact,
          (t: Time, o: string) => t >= 0, LinkJson, ParseLink, Stamp)
  }

  lemma TextIsAscii(r: Record)
    ensures Text(Concrete(), r) <==> AsciiRecord(r)
  {
  }

  lemma NormFacts(r: Record)
    ensures Norm(Norm(r)) == Norm(r) && AsciiRecord(Norm(r))
    ensures AsciiRecord(r) ==> Norm(r) == r.(observation := Compact(r.observation))
    ensures Ascii(r.prevHash) ==> Norm(r).prevHash == r.prevHash
    ensures forall h {:trigger Norm(WithHash(r, h))} :: Ascii(h) ==> Norm(WithHash(r, h)) == WithHash(Norm(r), h)
  {
    CompactIdempotent(r.observation);
    assert Ascii("");
  }

  lemma MarshalFacts(r: Record)
    requires r.collectedAt >= 0
    ensures LineSafe(Marshal(r).value) && Unmarshal(Marshal(r).value) == Some(Norm(r))
    ensures Marshal(Norm(r)) == Marshal(r) <==> AsciiRecord(r)
  {
    NormFacts(r);
    NormIsAscii(r);
    hide Norm, AsciiRecord, PutParts, PartsOf, GetRecord;
    assert Closes("}");
    GetPutRecord(r, "}");
    assert Marshal(r).value[0] == (if AsciiRecord(r) then 'T' else 'F');
    assert Marshal(Norm(r)).value[0] == 'T';
  }

  lemma RecordLawsHold(r: Record)
    ensures RecordLaws(Concrete(), r)
  {
    TextIsAscii(r);
    NormFacts(r);
    NormIsAscii(r);
    if r.collectedAt >= 0 {
      MarshalFacts(r);
    }
    hide Text, AsciiRecord, Norm, Unmarshal, LineSafe, Compact, WithHash;
  }

  lemma {:induction false} HexStrPlain(s: string)
    requires Hex(s)
    ensures ' ' !in PutStr(s, "")
  {
    if s != "" {
      assert HexDigit(s[0]);
      HexStrPlain(s[1..]);
    }
  }

  lemma LinkLaw(head: string, count: nat, archive: string)
    requires Hex(head)
    ensures ParseLink(LinkJson(head, count, archive)) == Some(Link(head, count))
  {
    HexStrPlain(head);
    GetPutNat(count, PutStr(head, ""));
    GetPutStr(head, "");
    CompactIdempotent(LinkJson(head, count, archive));
  }

  lemma StampInjective(s: int, t: int)
    requires Stamp(s) == Stamp(t)
    ensures s == t
  {
    GetPutNat(if s < 0 then -s else s, "");
    GetPutNat(if t < 0 then -t else t, "");
    if s < 0 {
      assert Stamp(s)[1..] == PutNat(-s, "");
    }
    if t < 0 {
      assert Stamp(t)[1..] == PutNat(-t, "");
    }
  }

  lemma UnmarshalIsText(b: string)
    ensures Unmarshal(b).Some? ==> Text(Concrete(), Unmarshal(b).value)
  {
    hide GetParts, RecordOf;
    if Unmarshal(b).Some? {
      var r := Unmarshal(b).value;
      assert AsciiRecord(r);
      hide GetRecord, Unmarshal;
      assert Text(Concrete(), r) <==> AsciiRecord(r);
    }
  }

  lemma DigestForm(b: string)
    ensures |Digest(b)| == 64 && Hex(Digest(b))
  {
  }

  lemma BytesLawsHold(b: string)
    ensures BytesLaws(Concrete(), b)
  {
    CompactIdempotent(b);
    DigestForm(b);
    UnmarshalIsText(b);
    hide Digest, Unmarshal, Compact, Text, Hex;
  }

  /** The laws are consistent. */
  lemma LawsConsistent()
    ensures Lawful(Concrete())
  {
    var c := Concrete();
    forall r {:trigger RecordLaws(c, r)} ensures RecordLaws(c, r) { RecordLawsHold(r); }
    forall b {:trigger BytesLaws(c, b)} ensures BytesLaws(c, b) { BytesLawsHold(b); }
    forall h, n, a {:trigger c.linkJson(h, n, a)} | Hex(h)
      ensures c.parseLink(c.linkJson(h, n, a)) == Some(Link(h, n))
    {
      LinkLaw(h, n, a);
    }
    forall s, t {:trigger c.stamp(s), c.stamp(t)} | c.stamp(s) == c.stamp(t) ensures s == t { StampInjective(s, t); }
  }
}
