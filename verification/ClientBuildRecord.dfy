/**
 The build record: a digest over length-prefixed artifacts, written as JSON after a build and
 checked against the artifacts present when it is read.
 */
module ClientBuildRecord {
  import opened Decimal
  import opened Sorting
  import opened Wrappers

  const FORMAT: real := 1.0
  const PREFIX := "DSH_CLIENT_"

  // ----- the digest input

  type Path = Bytes

  datatype Entry = Entry(path: Path, content: Bytes)

  function EncodeField(bytes: Bytes): Bytes {
    Print(|bytes|) + ":" + bytes
  }

  function EncodeEntry(e: Entry): Bytes {
    EncodeField(e.path) + EncodeField(e.content)
  }

  function Encode(entries: seq<Entry>): Bytes {
    if entries == [] then "" else EncodeEntry(entries[0]) + Encode(entries[1..])
  }

  lemma {:induction false} EncodeAppend(entries: seq<Entry>, e: Entry)
    ensures Encode(entries + [e]) == Encode(entries) + EncodeEntry(e)
  {
    if entries != [] {
      EncodeAppend(entries[1..], e);
      assert (entries + [e])[1..] == entries[1..] + [e];
    }
  }

  lemma EncodeStep(entries: seq<Entry>, i: nat)
    requires i < |entries|
    ensures Encode(entries[..i + 1]) == Encode(entries[..i]) + EncodeEntry(entries[i])
  {
    EncodeAppend(entries[..i], entries[i]);
    assert entries[..i + 1] == entries[..i] + [entries[i]];
  }

  // The four pieces of an entry, appended one after the other.
  lemma AssembleEntry(before: Bytes, e: Entry)
    ensures (((before + (Print(|e.path|) + ":")) + e.path) + (Print(|e.content|) + ":")) + e.content
            == before + EncodeEntry(e)
  {
  }

  // For instance, path `a/b` with content `0123456789ab`.
  lemma EncodedExample()
    ensures Encode([Entry("a/b", "0123456789ab")]) == "3:a/b12:0123456789ab"
  {
    assert Print(3) == "3" && Print(12) == "12";
    assert Encode([Entry("a/b", "0123456789ab")][1..]) == "";
  }

  datatype Field = Field(bytes: Bytes, rest: Bytes)

  // Reads one length-prefixed field off the front.
  function TakeField(s: Bytes): (r: Option<Field>)
    ensures r.Some? ==> |r.value.rest| < |s|
  {
    var n := DigitCount(s);
    if n == 0 || n == |s| || s[n] != ':' || n + 1 + Value(s[..n]) > |s| then None
    else
      var end := n + 1 + Value(s[..n]);
      Some(Field(s[n + 1..end], s[end..]))
  }

  function Decode(s: Bytes): Option<seq<Entry>>
    decreases |s|
  {
    if s == "" then Some([])
    else
      match TakeField(s)
      case None => None
      case Some(path) =>
        match TakeField(path.rest)
        case None => None
        case Some(content) =>
          match Decode(content.rest)
          case None => None
          case Some(entries) => Some([Entry(path.bytes, content.bytes)] + entries)
  }

  lemma FieldReadBack(bytes: Bytes, rest: Bytes)
    ensures TakeField(EncodeField(bytes) + rest) == Some(Field(bytes, rest))
  {
    var s, n := EncodeField(bytes) + rest, |Print(|bytes|)|;
    assert s == Print(|bytes|) + (":" + bytes + rest);
    PrintIsNumeral(|bytes|);
    ReadBack(|bytes|, ":" + bytes + rest);
    assert DigitCount(s) == n;
    assert s[n + 1..n + 1 + |bytes|] == bytes;
    assert s[n + 1 + |bytes|..] == rest;
  }

  // The framing is uniquely decodable.
  lemma {:induction false} DecodeEncode(entries: seq<Entry>)
    ensures Decode(Encode(entries)) == Some(entries)
  {
    if entries != [] {
      var e, rest := entries[0], Encode(entries[1..]);
      DecodeEncode(entries[1..]);
      assert Encode(entries) == EncodeField(e.path) + (EncodeField(e.content) + rest);
      FieldReadBack(e.path, EncodeField(e.content) + rest);
      FieldReadBack(e.content, rest);
      assert Encode(entries) != "";
      assert entries == [e] + entries[1..];
    }
  }

  // The artifacts as a map from path to content, and a listing of them in any order.
  type Artifacts = map<Path, Bytes>

  ghost predicate Lists(found: seq<Path>, artifacts: Artifacts) {
    NoDuplicates(found) && forall p :: p in found <==> p in artifacts
  }

  function Entries(paths: seq<Path>, artifacts: Artifacts): (entries: seq<Entry>)
    requires forall p :: p in paths ==> p in artifacts
    ensures |entries| == |paths|
  {
    seq(|paths|, i requires 0 <= i < |paths| => Entry(paths[i], artifacts[paths[i]]))
  }

  lemma SortedListing(found: seq<Path>, artifacts: Artifacts)
    requires Lists(found, artifacts)
    ensures multiset(SortBy(found, StringLeq)) == multiset(found)
    ensures SortedBy(SortBy(found, StringLeq), StringLeq)
    ensures forall p :: p in SortBy(found, StringLeq) <==> p in artifacts
    ensures |SortBy(found, StringLeq)| == |found| == |artifacts|
  {
    StringLeqPreorder();
    SortByCorrect(found, StringLeq);
    forall p ensures p in SortBy(found, StringLeq) <==> p in artifacts {
      assert p in SortBy(found, StringLeq) <==> p in multiset(SortBy(found, StringLeq));
    }
    DistinctCount(found, artifacts.Keys);
  }

  lemma {:induction false} DistinctCount(found: seq<Path>, keys: set<Path>)
    requires NoDuplicates(found) && forall p :: p in found <==> p in keys
    ensures |found| == |keys|
  {
    if found == [] {
      assert keys == {};
    } else {
      var init, last := found[..|found| - 1], found[|found| - 1];
      assert found == init + [last];
      assert last !in init;
      DistinctCount(init, keys - {last});
    }
  }

  ghost function DigestInput(found: seq<Path>, artifacts: Artifacts): Bytes
    requires Lists(found, artifacts)
  {
    SortedListing(found, artifacts);
    Encode(Entries(SortBy(found, StringLeq), artifacts))
  }

  lemma InputOfSame(found1: seq<Path>, found2: seq<Path>, artifacts: Artifacts)
    requires Lists(found1, artifacts) && Lists(found2, artifacts)
    ensures DigestInput(found1, artifacts) == DigestInput(found2, artifacts)
  {
    SortedListing(found1, artifacts);
    SortedListing(found2, artifacts);
    SameElementsPermute(found1, found2);
    OneStringOrder(SortBy(found1, StringLeq), SortBy(found2, StringLeq));
  }

  lemma EntriesDetermine(paths1: seq<Path>, artifacts1: Artifacts, paths2: seq<Path>, artifacts2: Artifacts)
    requires forall p :: p in paths1 <==> p in artifacts1
    requires forall p :: p in paths2 <==> p in artifacts2
    requires Entries(paths1, artifacts1) == Entries(paths2, artifacts2)
    ensures artifacts1 == artifacts2
  {
    var entries1, entries2 := Entries(paths1, artifacts1), Entries(paths2, artifacts2);
    forall i | 0 <= i < |paths1| ensures paths1[i] == paths2[i] {
      assert entries1[i].path == entries2[i].path;
    }
    assert paths1 == paths2;
    forall p | p in artifacts1 ensures artifacts1[p] == artifacts2[p] {
      var i :| 0 <= i < |paths1| && paths1[i] == p;
      assert entries1[i].content == entries2[i].content;
    }
  }

  // The input depends on the artifacts alone, not on the order they are found in, and determines them.
  lemma SameInputIff(found1: seq<Path>, artifacts1: Artifacts, found2: seq<Path>, artifacts2: Artifacts)
    requires Lists(found1, artifacts1) && Lists(found2, artifacts2)
    ensures DigestInput(found1, artifacts1) == DigestInput(found2, artifacts2) <==> artifacts1 == artifacts2
  {
    if artifacts1 == artifacts2 {
      InputOfSame(found1, found2, artifacts1);
    } else if DigestInput(found1, artifacts1) == DigestInput(found2, artifacts2) {
      SortedListing(found1, artifacts1);
      SortedListing(found2, artifacts2);
      var paths1, paths2 := SortBy(found1, StringLeq), SortBy(found2, StringLeq);
      DecodeEncode(Entries(paths1, artifacts1));
      DecodeEncode(Entries(paths2, artifacts2));
      EntriesDetermine(paths1, artifacts1, paths2, artifacts2);
    }
  }

  // ----- the record as JSON

  datatype Json =
    | JsonNull
    | JsonBoolean(value: bool)
    | JsonNumber(number: real)
    | JsonString(text: string)
    | JsonArray(elements: seq<Json>)
    | JsonObject(fields: map<string, Json>)

  datatype Digest = Digest(fileCount: int, sha256: string)

  datatype Record = Record(environment: map<string, string>, artifacts: Digest)

  datatype Failure =
    | RecordMissing
    | InvalidTopLevel
    | WrongFormat
    | InvalidEnvironment
    | InvalidArtifactDigest
    | InvalidArtifactCount
    | InvalidSha
    | EnvironmentDiffers
    | NoArtifacts
    | ArtifactsDiffer

  function ToJson(r: Record): Json {
    JsonObject(map[
      "formatVersion" := JsonNumber(FORMAT),
      "environment" := JsonObject(map name | name in r.environment :: JsonString(r.environment[name])),
      "artifacts" := JsonObject(map[
        "fileCount" := JsonNumber(r.artifacts.fileCount as real),
        "sha256" := JsonString(r.artifacts.sha256)])])
  }

  predicate IsSafeInteger(x: real) {
    x == x.Floor as real && -MAX_SAFE_INTEGER <= x.Floor <= MAX_SAFE_INTEGER
  }

  predicate IsSha256Hex(s: string) {
    |s| == 64 && forall i :: 0 <= i < |s| ==> '0' <= s[i] <= '9' || 'a' <= s[i] <= 'f'
  }

  predicate HasPrefix(name: string) {
    PREFIX <= name
  }

  function ParseRecord(v: Json): Result<Record, Failure> {
    if !v.JsonObject? || v.fields.Keys != {"artifacts", "environment", "formatVersion"} then Err(InvalidTopLevel)
    else
      var environment, artifacts := v.fields["environment"], v.fields["artifacts"];
      if v.fields["formatVersion"] != JsonNumber(FORMAT) then Err(WrongFormat)
      else if !environment.JsonObject? then Err(InvalidEnvironment)
      else if exists name ::
                name in environment.fields && !(HasPrefix(name) && environment.fields[name].JsonString?) then
        Err(InvalidEnvironment)
      else if !artifacts.JsonObject? || artifacts.fields.Keys != {"fileCount", "sha256"} then Err(InvalidArtifactDigest)
      else
        var fileCount, sha256 := artifacts.fields["fileCount"], artifacts.fields["sha256"];
        if !fileCount.JsonNumber? || !IsSafeInteger(fileCount.number) || fileCount.number < 1.0 then
          Err(InvalidArtifactCount)
        else if !sha256.JsonString? || !IsSha256Hex(sha256.text) then Err(InvalidSha)
        else
          Ok(Record(
            map name | name in environment.fields :: environment.fields[name].text,
            Digest(fileCount.number.Floor, sha256.text)))
  }

  predicate ValidRecord(r: Record) {
    && (forall name :: name in r.environment ==> HasPrefix(name))
    && 1 <= r.artifacts.fileCount <= MAX_SAFE_INTEGER
    && IsSha256Hex(r.artifacts.sha256)
  }

  // Parsing accepts exactly the JSON forms of valid records, and gives back the record.
  lemma ParsesIffWritten(v: Json, r: Record)
    ensures ParseRecord(v) == Ok(r) <==> ValidRecord(r) && v == ToJson(r)
    ensures v == ToJson(r) ==>
              && v.fields.Keys == {"artifacts", "environment", "formatVersion"}
              && v.fields["formatVersion"] == JsonNumber(1.0)
              && v.fields["artifacts"].fields.Keys == {"fileCount", "sha256"}
    ensures ValidRecord(r) <==>
              && (forall name :: name in r.environment ==> "DSH_CLIENT_" <= name)
              && 1 <= r.artifacts.fileCount <= 9007199254740991
              && |r.artifacts.sha256| == 64 && forall i :: 0 <= i < 64 ==> r.artifacts.sha256[i] in "0123456789abcdef"
  {
    forall c: char ensures c in "0123456789abcdef" <==> '0' <= c <= '9' || 'a' <= c <= 'f' {
      HexDigit(c);
    }
    if ParseRecord(v) == Ok(r) {
      ParsedWasWritten(v, r);
    }
    if ValidRecord(r) && v == ToJson(r) {
      WrittenParses(r);
    }
  }

  lemma HexDigit(c: char)
    ensures c in "0123456789abcdef" <==> '0' <= c <= '9' || 'a' <= c <= 'f'
  {
    var digits := "0123456789abcdef";
    if '0' <= c <= '9' {
      assert digits[c as int - '0' as int] == c;
    } else if 'a' <= c <= 'f' {
      assert digits[c as int - 'a' as int + 10] == c;
    }
  }

  lemma WrittenParses(r: Record)
    requires ValidRecord(r)
    ensures ParseRecord(ToJson(r)) == Ok(r)
  {
    var environment := ToJson(r).fields["environment"].fields;
    assert (map name | name in environment :: environment[name].text) == r.environment;
  }

  lemma ParsedWasWritten(v: Json, r: Record)
    requires ParseRecord(v) == Ok(r)
    ensures ValidRecord(r) && v == ToJson(r)
  {
    var environment, artifacts := v.fields["environment"].fields, v.fields["artifacts"].fields;
    var written := ToJson(r).fields;
    assert written["environment"].fields == environment;
    assert written["artifacts"].fields == artifacts;
    assert written == v.fields;
  }

  // ----- writing and reading

  // The public part of a process environment; undefined values are dropped.
  function ClientEnvironment(environment: map<string, Option<string>>): map<string, string> {
    map name | name in environment && HasPrefix(name) && environment[name].Some? :: environment[name].value
  }

  ghost function DigestOf(found: seq<Path>, artifacts: Artifacts, hash: Bytes -> string): Result<Digest, Failure>
    requires Lists(found, artifacts)
  {
    if found == [] then Err(NoArtifacts) else Ok(Digest(|found|, hash(DigestInput(found, artifacts))))
  }

  ghost function WrittenRecord(
    found: seq<Path>, artifacts: Artifacts, environment: map<string, Option<string>>, hash: Bytes -> string)
    : Result<Record, Failure>
    requires Lists(found, artifacts)
  {
    match DigestOf(found, artifacts, hash)
    case Err(failure) => Err(failure)
    case Ok(digest) => Ok(Record(ClientEnvironment(environment), digest))
  }

  ghost function ReadRecord(
    file: Option<Json>, found: seq<Path>, artifacts: Artifacts, expected: Option<map<string, string>>,
    hash: Bytes -> string)
    : Result<Record, Failure>
    requires Lists(found, artifacts)
  {
    match file
    case None => Err(RecordMissing)
    case Some(json) =>
      match ParseRecord(json)
      case Err(failure) => Err(failure)
      case Ok(record) =>
        if expected.Some? && record.environment != expected.value then Err(EnvironmentDiffers)
        else
          match DigestOf(found, artifacts, hash)
          case Err(failure) => Err(failure)
          case Ok(current) => if current != record.artifacts then Err(ArtifactsDiffer) else Ok(record)
  }

  // A repository root: the artifacts under it and the record file. `found` is the order in which the
  // file system lists the artifacts.
  class Root {
    const hash: Bytes -> string
    var artifacts: Artifacts
    var record: Option<Json>

    constructor (hash: Bytes -> string, artifacts: Artifacts)
      ensures this.hash == hash && this.artifacts == artifacts && record == None
    {
      this.hash, this.artifacts := hash, artifacts;
      record := None;
    }

    method ClientArtifactDigest(found: seq<Path>) returns (r: Result<Digest, Failure>)
      requires Lists(found, artifacts)
      ensures r == DigestOf(found, artifacts, hash)
    {
      var paths := SortBy(found, StringLeq);
      SortedListing(found, artifacts);
      if |paths| == 0 {
        return Err(NoArtifacts);
      }
      var input: Bytes := "";
      ghost var entries := Entries(paths, artifacts);
      for i := 0 to |paths|
        invariant input == Encode(entries[..i])
      {
        var path, content := paths[i], artifacts[paths[i]];
        EncodeStep(entries, i);
        AssembleEntry(input, entries[i]);
        input := input + (Print(|path|) + ":");
        input := input + path;
        input := input + (Print(|content|) + ":");
        input := input + content;
      }
      assert entries[..|paths|] == entries;
      r := Ok(Digest(|paths|, hash(input)));
    }

    method WriteClientBuildRecord(found: seq<Path>, environment: map<string, Option<string>>)
      returns (r: Result<Record, Failure>)
      requires Lists(found, artifacts)
      modifies this`record
      ensures r == WrittenRecord(found, artifacts, environment, hash)
      ensures record == if r.Ok? then Some(ToJson(r.value)) else old(record)
      ensures r.Ok? ==> forall name ::
                name in r.value.environment <==> "DSH_CLIENT_" <= name && name in environment && environment[name].Some?
      ensures r.Ok? ==> forall name ::
                name in r.value.environment ==> r.value.environment[name] == environment[name].value
    {
      var digest := ClientArtifactDigest(found);
      if digest.Err? {
        return Err(digest.error);
      }
      r := Ok(Record(ClientEnvironment(environment), digest.value));
      record := Some(ToJson(r.value));
    }

    method ReadClientBuildRecord(found: seq<Path>, expected: Option<map<string, string>>)
      returns (r: Result<Record, Failure>)
      requires Lists(found, artifacts)
      ensures r == ReadRecord(record, found, artifacts, expected, hash)
    {
      if record.None? {
        return Err(RecordMissing);
      }
      var parsed := ParseRecord(record.value);
      if parsed.Err? {
        return Err(parsed.error);
      }
      if expected.Some? && parsed.value.environment != expected.value {
        return Err(EnvironmentDiffers);
      }
      var current := ClientArtifactDigest(found);
      if current.Err? {
        return Err(current.error);
      }
      var recorded := parsed.value.artifacts;
      if current.value.fileCount != recorded.fileCount || current.value.sha256 != recorded.sha256 {
        return Err(ArtifactsDiffer);
      }
      r := Ok(parsed.value);
    }
  }

  // Two different sets of artifacts that the check cannot tell apart.
  ghost predicate Collision(
    found1: seq<Path>, artifacts1: Artifacts, found2: seq<Path>, artifacts2: Artifacts, hash: Bytes -> string)
    requires Lists(found1, artifacts1) && Lists(found2, artifacts2)
  {
    && artifacts1 != artifacts2 && |artifacts1| == |artifacts2|
    && hash(DigestInput(found1, artifacts1)) == hash(DigestInput(found2, artifacts2))
  }

  lemma SameDigestIff(
    found1: seq<Path>, artifacts1: Artifacts, found2: seq<Path>, artifacts2: Artifacts, hash: Bytes -> string)
    requires Lists(found1, artifacts1) && Lists(found2, artifacts2) && found1 != []
    ensures DigestOf(found1, artifacts1, hash) == DigestOf(found2, artifacts2, hash)
            <==> artifacts1 == artifacts2 || Collision(found1, artifacts1, found2, artifacts2, hash)
  {
    SameInputIff(found1, artifacts1, found2, artifacts2);
    SortedListing(found1, artifacts1);
    SortedListing(found2, artifacts2);
  }

  /**
   After a write, a read gives back the written record exactly when the environment is the expected one
   and the artifacts are the recorded ones, or else the hash collides on the two different inputs.
   */
  lemma ReadAcceptsIff(
    found1: seq<Path>, artifacts1: Artifacts, environment: map<string, Option<string>>,
    found2: seq<Path>, artifacts2: Artifacts, expected: Option<map<string, string>>, hash: Bytes -> string)
    requires Lists(found1, artifacts1) && Lists(found2, artifacts2)
    requires found1 != [] && |found1| <= MAX_SAFE_INTEGER && IsSha256Hex(hash(DigestInput(found1, artifacts1)))
    ensures var written := WrittenRecord(found1, artifacts1, environment, hash);
            var read := ReadRecord(Some(ToJson(written.value)), found2, artifacts2, expected, hash);
            && (read.Ok? ==> read == written)
            && (read.Ok? <==>
                && (expected.None? || expected.value == ClientEnvironment(environment))
                && (artifacts1 == artifacts2 || Collision(found1, artifacts1, found2, artifacts2, hash)))
  {
    WrittenParses(WrittenRecord(found1, artifacts1, environment, hash).value);
    SameDigestIff(found1, artifacts1, found2, artifacts2, hash);
  }
}
