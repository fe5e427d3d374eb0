/**
 The client build record of scripts/client-build-environment.ts: the length-prefixed byte stream
 fed to the artifact digest (lines 246-263), and the public environment a build runs under
 (lines 93-103 and 130-144).
 */
module DigestFraming {
  import opened Prelude

  newtype byte = n: int | 0 <= n < 256

  type Bytes = seq<byte>

  /** A path as UTF-8 bytes and the file's content. */
  datatype File = File(path: Bytes, content: Bytes)

  const COLON: byte := 58

  predicate IsDigit(b: byte) {
    48 <= b <= 57
  }

  /** A number as JavaScript prints it. */
  function Decimal(n: nat): (d: Bytes)
    ensures |d| > 0
  {
    if n < 10 then [(48 + n) as byte] else Decimal(n / 10) + [(48 + n % 10) as byte]
  }

  function DigitValue(b: byte): nat
    requires IsDigit(b)
  {
    b as int - 48
  }

  function Chunk(data: Bytes): Bytes {
    Decimal(|data|) + ([COLON] + data)
  }

  /** What the digest is updated with for the first `n` files. */
  function FrameUpTo(files: seq<File>, n: nat): Bytes
    requires n <= |files|
  {
    if n == 0 then [] else FrameUpTo(files, n - 1) + FileChunks(files[n - 1])
  }

  /** Everything the digest is updated with, in order. */
  function Frame(files: seq<File>): Bytes {
    FrameUpTo(files, |files|)
  }

  function FileChunks(f: File): Bytes {
    Chunk(f.path) + Chunk(f.content)
  }

  method ArtifactStream(files: seq<File>) returns (stream: Bytes)
    ensures stream == Frame(files)
  {
    stream := [];
    for k := 0 to |files|
      invariant stream == FrameUpTo(files, k)
    {
      ghost var before := stream;
      stream := stream + Decimal(|files[k].path|) + [COLON];
      stream := stream + files[k].path;
      stream := stream + Decimal(|files[k].content|) + [COLON];
      stream := stream + files[k].content;
      assert stream == before + FileChunks(files[k]);
    }
  }

  /** Read digits up to a colon onto the number read so far: the number, and what follows the colon. */
  function ReadLength(s: Bytes, sofar: nat): (r: Option<(nat, Bytes)>)
    ensures r.Some? ==> |r.value.1| < |s|
  {
    if s == [] then None
    else if s[0] == COLON then Some((sofar, s[1..]))
    else if IsDigit(s[0]) then ReadLength(s[1..], 10 * sofar + DigitValue(s[0]))
    else None
  }

  /** Read one chunk off the front: its data and what follows it. */
  function Unchunk(s: Bytes): (r: Option<(Bytes, Bytes)>)
    ensures r.Some? ==> |r.value.1| < |s|
  {
    match ReadLength(s, 0)
    case None => None
    case Some((n, rest)) => if n > |rest| then None else Some((rest[..n], rest[n..]))
  }

  function Unframe(s: Bytes): Option<seq<File>>
    decreases |s|
  {
    if s == [] then Some([])
    else
      match Unchunk(s)
      case None => None
      case Some((path, rest)) =>
        match Unchunk(rest)
        case None => None
        case Some((content, rest)) =>
          match Unframe(rest)
          case None => None
          case Some(files) => Some([File(path, content)] + files)
  }

  /** `sofar` followed by the digits of `n`. */
  function Shifted(sofar: nat, n: nat): nat {
    if n < 10 then 10 * sofar + n else 10 * Shifted(sofar, n / 10) + n % 10
  }

  lemma {:induction false} ShiftedFromZero(n: nat)
    ensures Shifted(0, n) == n
  {
    if n >= 10 { ShiftedFromZero(n / 10); }
  }

  lemma ReadOneDigit(b: byte, tail: Bytes, sofar: nat)
    requires IsDigit(b)
    ensures ReadLength([b] + tail, sofar) == ReadLength(tail, 10 * sofar + DigitValue(b))
  {
    assert ([b] + tail)[1..] == tail;
  }

  /** The digits of a number are read as that number. */
  lemma {:induction false} DecimalIsRead(n: nat, tail: Bytes, sofar: nat)
    ensures ReadLength(Decimal(n) + tail, sofar) == ReadLength(tail, Shifted(sofar, n))
  {
    if n < 10 {
      ReadOneDigit((48 + n) as byte, tail, sofar);
    } else {
      var last := (48 + n % 10) as byte;
      DecimalIsRead(n / 10, [last] + tail, sofar);
      ReadOneDigit(last, tail, Shifted(sofar, n / 10));
      Regroup(Decimal(n / 10), [last], tail);
    }
  }

  /** Whatever bytes the data holds, digits and colons included, a chunk is read back whole. */
  lemma UnchunkChunk(data: Bytes, rest: Bytes)
    ensures Unchunk(Chunk(data) + rest) == Some((data, rest))
  {
    var body := data + rest;
    var tail := [COLON] + body;
    assert Chunk(data) + rest == Decimal(|data|) + tail;
    DecimalIsRead(|data|, tail, 0);
    ShiftedFromZero(|data|);
    assert tail[1..] == body;
    assert body[..|data|] == data && body[|data|..] == rest;
  }

  lemma Regroup(a: Bytes, b: Bytes, c: Bytes)
    ensures (a + b) + c == a + (b + c)
  {}

  lemma UnframeStep(f: File, rest: Bytes)
    ensures Unframe(FileChunks(f) + rest) ==
              match Unframe(rest) { case None => None case Some(files) => Some([f] + files) }
  {
    Regroup(Chunk(f.path), Chunk(f.content), rest);
    UnchunkChunk(f.path, Chunk(f.content) + rest);
    UnchunkChunk(f.content, rest);
    assert FileChunks(f) + rest != [];
  }

  lemma UnframeOnto(f: File, stream: Bytes, rest: seq<File>)
    requires Unframe(stream) == Some(rest)
    ensures Unframe(FileChunks(f) + stream) == Some([f] + rest)
  {
    UnframeStep(f, stream);
  }

  lemma RegroupFiles(files: seq<File>, n: nat, f: File, rest: seq<File>)
    requires 0 < n <= |files| && f == files[n - 1]
    ensures files[..n - 1] + ([f] + rest) == files[..n] + rest
  {}

  /** In front of any stream that decodes, the first `n` files decode as themselves. */
  lemma {:induction false} UnframeFirst(files: seq<File>, n: nat, stream: Bytes, rest: seq<File>, s: Bytes)
    requires n <= |files| && Unframe(stream) == Some(rest) && s == FrameUpTo(files, n) + stream
    ensures Unframe(s) == Some(files[..n] + rest)
    decreases n
  {
    if n == 0 {
      assert s == stream && files[..0] + rest == rest;
    } else {
      var f := files[n - 1];
      var next := FileChunks(f) + stream;
      UnframeOnto(f, stream, rest);
      Regroup(FrameUpTo(files, n - 1), FileChunks(f), stream);
      UnframeFirst(files, n - 1, next, [f] + rest, s);
      RegroupFiles(files, n, f, rest);
    }
  }

  /** The stream determines the list of files. */
  lemma UnframeFrame(files: seq<File>)
    ensures Unframe(Frame(files)) == Some(files)
  {
    assert Frame(files) == FrameUpTo(files, |files|) + [] && files[..|files|] + [] == files;
    UnframeFirst(files, |files|, [], [], Frame(files));
  }

  /** Two artifact lists with the same stream are the same list. */
  lemma FrameIsInjective(a: seq<File>, b: seq<File>)
    requires Frame(a) == Frame(b)
    ensures a == b
  {
    UnframeFrame(a);
    UnframeFrame(b);
  }
}

module ClientEnvironment {
  import opened Prelude
  import opened DigestFraming

  type Environment = map<string, string>

  const CLIENT_BUILD_ENV_PREFIX := "DSH_CLIENT_"
  const CLIENT_BUILD_PROFILE_SELECTOR := "DSH_BUILD_CLIENT_PROFILE"

  /** A variable that may be embedded in browser artifacts. */
  predicate Public(name: string) {
    CLIENT_BUILD_ENV_PREFIX <= name
  }

  /** The public names are the prefix with anything after it. */
  lemma PublicExactly(name: string)
    ensures Public(name) <==> exists rest :: name == CLIENT_BUILD_ENV_PREFIX + rest
  {
    if Public(name) { assert name == CLIENT_BUILD_ENV_PREFIX + name[|CLIENT_BUILD_ENV_PREFIX|..]; }
  }

  /** `clientBuildEnvironment`. */
  function PublicPart(environment: Environment): Environment {
    map name | name in environment && Public(name) :: environment[name]
  }

  function Inherited(environment: Environment): Environment {
    map name | name in environment && name != CLIENT_BUILD_PROFILE_SELECTOR && !Public(name) :: environment[name]
  }

  ghost predicate Lists(order: seq<string>, keys: set<string>) {
    forall p :: p in order <==> p in keys
  }

  method ClientBuildProcessEnvironment(environment: Environment, client: Environment, order: seq<string>) returns (child: Environment)
    requires Lists(order, environment.Keys)
    ensures child == Inherited(environment) + client
  {
    child := map[];
    for k := 0 to |order|
      invariant forall name :: name in child <==> name in order[..k] && name != CLIENT_BUILD_PROFILE_SELECTOR && !Public(name)
      invariant forall name :: name in child ==> child[name] == environment[name]
    {
      var name := order[k];
      assert order[..k + 1] == order[..k] + [name];
      if name != CLIENT_BUILD_PROFILE_SELECTOR && !Public(name) {
        child := child[name := environment[name]];
      }
    }
    assert order[..|order|] == order;
    assert child == Inherited(environment);
    child := child + client;
  }

  /** A build sees exactly the public values selected for it, none inherited, and everything else but the selector as before. */
  lemma ChildSeesExactlyTheSelection(environment: Environment, client: Environment)
    requires forall name :: name in client ==> Public(name)
    ensures var child := Inherited(environment) + client;
            && PublicPart(child) == client
            && (forall name :: name in child && name !in client ==> !(exists rest :: name == CLIENT_BUILD_ENV_PREFIX + rest))
            && CLIENT_BUILD_PROFILE_SELECTOR !in child
            && forall name :: !Public(name) && name != CLIENT_BUILD_PROFILE_SELECTOR ==>
                 (name in child <==> name in environment) && (name in child ==> child[name] == environment[name])
  {
    SelectorIsPrivate();
    assert PublicPart(Inherited(environment) + client) == client;
    var child := Inherited(environment) + client;
    forall name | name in child && name !in client ensures !(exists rest :: name == CLIENT_BUILD_ENV_PREFIX + rest) {
      PublicExactly(name);
    }
  }

  lemma SelectorIsPrivate()
    ensures !Public(CLIENT_BUILD_PROFILE_SELECTOR)
  {
    assert CLIENT_BUILD_PROFILE_SELECTOR[4] == 'B' && CLIENT_BUILD_ENV_PREFIX[4] == 'C';
  }

  datatype Record = Record(environment: Environment, fileCount: nat, sha256: string)

  datatype Failure =
    | NoArtifacts | InvalidTopLevel | WrongFormat | InvalidEnvironment | InvalidEnvironmentEntry
    | InvalidArtifacts | InvalidArtifactCount | InvalidDigest | EnvironmentDiffers | ArtifactsDiffer

  const CLIENT_BUILD_RECORD_FORMAT := 1

  /** The JSON the record is written as. */
  function ToJson(record: Record): Json {
    Object(map[
      "formatVersion" := Integer(CLIENT_BUILD_RECORD_FORMAT),
      "environment" := Object(map name | name in record.environment :: Text(record.environment[name])),
      "artifacts" := Object(map["fileCount" := Integer(record.fileCount), "sha256" := Text(record.sha256)])])
  }

  predicate IsHex(c: char) {
    '0' <= c <= '9' || 'a' <= c <= 'f'
  }

  predicate HexDigits(s: string) {
    forall i :: 0 <= i < |s| ==> IsHex(s[i])
  }

  /** `/^[0-9a-f]{64}$/`. */
  predicate HexDigest(s: string) {
    |s| == 64 && HexDigits(s)
  }

  const HEX := "0123456789abcdef"

  /** `digest('hex')`: every byte as two digits. */
  function Hex(digest: Bytes): string {
    if digest == [] then "" else [HEX[digest[0] as int / 16], HEX[digest[0] as int % 16]] + Hex(digest[1..])
  }

  function HexValue(c: char): (v: nat)
    requires IsHex(c)
    ensures v < 16 && HEX[v] == c
  {
    if c <= '9' then (c - '0') as nat else 10 + (c - 'a') as nat
  }

  lemma TwoDigits(a: nat, b: nat, n: nat)
    requires a < 16 && b < 16 && n == 16 * a + b
    ensures n < 256 && n / 16 == a && n % 16 == b
  {}

  lemma DigitIsHex(v: nat)
    requires v < 16
    ensures IsHex(HEX[v])
  {}

  lemma {:induction false} HexIsHex(digest: Bytes)
    ensures |Hex(digest)| == 2 * |digest| && HexDigits(Hex(digest))
  {
    if digest != [] {
      HexIsHex(digest[1..]);
      DigitIsHex(digest[0] as int / 16);
      DigitIsHex(digest[0] as int % 16);
    }
  }

  lemma {:induction false} HexIsOfBytes(s: string, n: nat) returns (digest: Bytes)
    requires |s| == 2 * n && HexDigits(s)
    ensures |digest| == n && Hex(digest) == s
  {
    if n == 0 {
      digest := [];
    } else {
      var a, b := HexValue(s[0]), HexValue(s[1]);
      TwoDigits(a, b, 16 * a + b);
      var rest := HexIsOfBytes(s[2..], n - 1);
      digest := [(16 * a + b) as byte] + rest;
      assert digest[1..] == rest && s == [s[0], s[1]] + s[2..];
    }
  }

  /** The digests accepted are exactly those of 32 bytes, as they are written. */
  lemma DigestExactly(s: string)
    ensures HexDigest(s) <==> exists digest :: |digest| == 32 && s == Hex(digest)
  {
    if HexDigest(s) {
      var digest := HexIsOfBytes(s, 32);
    }
    forall digest | |digest| == 32 && s == Hex(digest) ensures HexDigest(s) { HexIsHex(digest); }
  }

  /** `hasExactKeys` of an object. */
  predicate HasExactKeys(value: Json, expected: set<string>) {
    value.Object? && value.fields.Keys == expected
  }

  /** `parseClientBuildRecord`. */
  function ParseRecord(value: Json): Result<Record, Failure> {
    if !HasExactKeys(value, {"artifacts", "environment", "formatVersion"}) then Err(InvalidTopLevel)
    else if value.fields["formatVersion"] != Integer(CLIENT_BUILD_RECORD_FORMAT) then Err(WrongFormat)
    else
      var environment, artifacts := value.fields["environment"], value.fields["artifacts"];
      if !environment.Object? then Err(InvalidEnvironment)
      else if exists name :: name in environment.fields && !(Public(name) && environment.fields[name].Text?) then Err(InvalidEnvironmentEntry)
      else if !HasExactKeys(artifacts, {"fileCount", "sha256"}) then Err(InvalidArtifacts)
      else
        var count, digest := artifacts.fields["fileCount"], artifacts.fields["sha256"];
        if !count.Integer? || !(1 <= count.number <= MAX_SAFE_INTEGER) then Err(InvalidArtifactCount)
        else if !digest.Text? || !HexDigest(digest.text) then Err(InvalidDigest)
        else Ok(Record(map name | name in environment.fields :: environment.fields[name].text, count.number, digest.text))
  }

  /** Only public values, at least one artifact, a digest in hexadecimal. */
  predicate WellFormed(record: Record) {
    && (forall name :: name in record.environment ==> Public(name))
    && 1 <= record.fileCount <= MAX_SAFE_INTEGER && HexDigest(record.sha256)
  }

  lemma ParsesItsJson(record: Record)
    requires WellFormed(record)
    ensures ParseRecord(ToJson(record)) == Ok(record)
  {
    var fields := ToJson(record).fields;
    assert fields.Keys == {"artifacts", "environment", "formatVersion"};
    assert fields["artifacts"].fields.Keys == {"fileCount", "sha256"};
    var names := fields["environment"].fields;
    assert (map name | name in names :: names[name].text) == record.environment;
  }

  lemma ParsedIsWellFormed(value: Json)
    requires ParseRecord(value).Ok?
    ensures WellFormed(ParseRecord(value).value) && value == ToJson(ParseRecord(value).value)
  {
    var record := ParseRecord(value).value;
    var environment, artifacts := value.fields["environment"], value.fields["artifacts"];
    assert environment.fields == map name | name in record.environment :: Text(record.environment[name]);
    assert artifacts.fields == map["fileCount" := Integer(record.fileCount), "sha256" := Text(record.sha256)];
    assert value.fields == ToJson(record).fields;
  }

  /** The parser accepts exactly the JSON of well-formed records, and gives back the record it was written from. */
  lemma ParseExactly(value: Json, record: Record)
    ensures ParseRecord(value) == Ok(record) <==> WellFormed(record) && value == ToJson(record)
  {
    if WellFormed(record) { ParsesItsJson(record); }
    if ParseRecord(value).Ok? { ParsedIsWellFormed(value); }
  }

  /** `writeClientBuildRecord`, for a hash of byte streams. */
  function WriteRecord(environment: Environment, artifacts: seq<File>, hash: Bytes -> string): Result<Record, Failure> {
    if artifacts == [] then Err(NoArtifacts)
    else Ok(Record(PublicPart(environment), |artifacts|, hash(Frame(artifacts))))
  }

  /** `readClientBuildRecord` of the file's JSON: `expected` is the environment a consumer requires, if any. */
  function ReadRecord(value: Json, artifacts: seq<File>, expected: Option<Environment>, hash: Bytes -> string): Result<Record, Failure> {
    match ParseRecord(value)
    case Err(failure) => Err(failure)
    case Ok(record) =>
      if expected.Some? && PublicPart(record.environment) != expected.value then Err(EnvironmentDiffers)
      else if artifacts == [] then Err(NoArtifacts)
      else if |artifacts| != record.fileCount || hash(Frame(artifacts)) != record.sha256 then Err(ArtifactsDiffer)
      else Ok(record)
  }

  /** The record's environment is the one required, if one is. */
  ghost predicate Meets(record: Record, expected: Option<Environment>) {
    expected.Some? ==> record.environment == expected.value
  }

  /** The record counts the artifacts and has the hash of their stream. */
  ghost predicate Describes(record: Record, artifacts: seq<File>, hash: Bytes -> string) {
    |artifacts| == record.fileCount && hash(Frame(artifacts)) == record.sha256
  }

  /**
   Any JSON reads as a record exactly when it is that of a well-formed one which meets the requirement and describes
   the artifacts at hand; of a record the requirement is judged first, then whether there are artifacts at all.
   */
  lemma ReadsExactly(value: Json, artifacts: seq<File>, expected: Option<Environment>, hash: Bytes -> string, record: Record)
    ensures var read := ReadRecord(value, artifacts, expected, hash);
            && (read == Ok(record) <==>
                  WellFormed(record) && value == ToJson(record) && Meets(record, expected) && Describes(record, artifacts, hash))
            && (WellFormed(record) && value == ToJson(record) && !Describes(record, artifacts, hash) ==>
                  read == Err(if !Meets(record, expected) then EnvironmentDiffers else if artifacts == [] then NoArtifacts else ArtifactsDiffer))
  {
    ParseExactly(value, record);
    if WellFormed(record) { assert PublicPart(record.environment) == record.environment; }
  }

  /** A record is written whenever there are artifacts: the public values alone, the count, and the hash of the stream. */
  lemma WritesExactly(environment: Environment, artifacts: seq<File>, hash: Bytes -> string)
    ensures match WriteRecord(environment, artifacts, hash)
            case Err(failure) => failure == NoArtifacts && artifacts == []
            case Ok(record) =>
              && artifacts != [] && Describes(record, artifacts, hash)
              && (forall name :: name in record.environment <==> name in environment && exists rest :: name == CLIENT_BUILD_ENV_PREFIX + rest)
              && (forall name :: name in record.environment ==> record.environment[name] == environment[name])
  {
    forall name ensures Public(name) <==> exists rest :: name == CLIENT_BUILD_ENV_PREFIX + rest { PublicExactly(name); }
  }

  /**
   A written record reads back, as it was written, exactly while the artifacts are the ones it was written
   for and the environment is the one required, as long as the hash does not collide on the two streams.
   */
  lemma RecordGuardsArtifacts(environment: Environment, before: seq<File>, after: seq<File>, expected: Option<Environment>, hash: Bytes -> string)
    requires 1 <= |before| <= MAX_SAFE_INTEGER && HexDigest(hash(Frame(before)))
    requires hash(Frame(before)) == hash(Frame(after)) ==> Frame(before) == Frame(after)
    ensures var record := WriteRecord(environment, before, hash).value;
            var read := ReadRecord(ToJson(record), after, expected, hash);
            && (read.Ok? ==> read.value == record)
            && (read.Ok? <==> before == after && (expected.None? || expected.value == PublicPart(environment)))
  {
    var record := WriteRecord(environment, before, hash).value;
    ParsesItsJson(record);
    assert PublicPart(record.environment) == record.environment;
    if hash(Frame(before)) == hash(Frame(after)) { FrameIsInjective(before, after); }
  }
}
