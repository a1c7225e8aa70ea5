/** The client build record: a digest that binds a public environment to the exact artifacts of one build. */
module ClientBuildRecord {

  import opened Decimal
  import opened Options
  import opened Ordering

  type Path = Bytes

  /** The artifact files: each path with its bytes. */
  type Artifacts = map<Path, Bytes>

  type Environment = map<string, string>

  const PREFIX := "DSH_CLIENT_"

  const COLON: Byte := 58

  datatype Digest = Digest(fileCount: nat, sha256: string)

  datatype Record = Record(environment: Environment, artifacts: Digest)

  /** What reading a record ends in; the last two are the checks against the caller and the files. */
  datatype Reading = Verified(record: Record) | Missing | Invalid | NoArtifacts | EnvironmentDiffers | ArtifactsDiffer

  // ----- the framing -----

  /** A length, a colon and the bytes. */
  function Chunk(s: Bytes): Bytes {
    Digits(|s|) + ([COLON] + s)
  }

  function Frame(path: Path, content: Bytes): Bytes {
    Chunk(path) + Chunk(content)
  }

  /** Everything fed to the hash for these paths. */
  function Frames(paths: seq<Path>, files: Artifacts): Bytes
    requires forall p :: p in paths ==> p in files
  {
    if paths == [] then [] else Frame(paths[0], files[paths[0]]) + Frames(paths[1..], files)
  }

  /** A chunk ends where its length says, whatever follows. */
  lemma ChunkUnambiguous(s: Bytes, x: Bytes, t: Bytes, y: Bytes)
    requires Chunk(s) + x == Chunk(t) + y
    ensures s == t && x == y
  {
    hide Digits;
    assert Chunk(s) + x == Digits(|s|) + ([COLON] + s + x);
    assert Chunk(t) + y == Digits(|t|) + ([COLON] + t + y);
    DigitsUnambiguous(|s|, [COLON] + s + x, |t|, [COLON] + t + y);
    var u := [COLON] + s + x;
    assert u[1..1 + |s|] == s && u[1 + |s|..] == x;
    assert u[1..1 + |t|] == t && u[1 + |t|..] == y;
  }

  lemma FrameUnambiguous(p: Path, a: Bytes, x: Bytes, q: Path, b: Bytes, y: Bytes)
    requires Frame(p, a) + x == Frame(q, b) + y
    ensures p == q && a == b && x == y
  {
    hide Chunk;
    assert Frame(p, a) + x == Chunk(p) + (Chunk(a) + x);
    assert Frame(q, b) + y == Chunk(q) + (Chunk(b) + y);
    ChunkUnambiguous(p, Chunk(a) + x, q, Chunk(b) + y);
    ChunkUnambiguous(a, x, b, y);
  }

  lemma FrameNotEmpty(p: Path, a: Bytes, x: Bytes)
    ensures Frame(p, a) + x != []
  {
    assert Digits(|p|) != [];
  }

  /** The framed bytes determine the paths, in order, and every file's content. */
  lemma {:induction false} FramesUnambiguous(ps: seq<Path>, a: Artifacts, qs: seq<Path>, b: Artifacts)
    requires (forall p :: p in ps ==> p in a) && (forall q :: q in qs ==> q in b)
    requires Frames(ps, a) == Frames(qs, b)
    ensures ps == qs && forall p :: p in ps ==> a[p] == b[p]
    decreases |ps|
  {
    hide Frame;
    if ps == [] {
      if qs != [] {
        FrameNotEmpty(qs[0], b[qs[0]], Frames(qs[1..], b));
      }
    } else if qs == [] {
      FrameNotEmpty(ps[0], a[ps[0]], Frames(ps[1..], a));
    } else {
      FrameUnambiguous(ps[0], a[ps[0]], Frames(ps[1..], a), qs[0], b[qs[0]], Frames(qs[1..], b));
      FramesUnambiguous(ps[1..], a, qs[1..], b);
      assert ps == [ps[0]] + ps[1..] && qs == [qs[0]] + qs[1..];
    }
  }

  lemma FramesOfNone(files: Artifacts)
    ensures Frames([], files) == []
  {
  }

  lemma FramesOfFirst(p: Path, rest: seq<Path>, files: Artifacts)
    requires p in files && forall q :: q in rest ==> q in files
    ensures Frames([p] + rest, files) == Frame(p, files[p]) + Frames(rest, files)
  {
    hide Frame;
    assert ([p] + rest)[1..] == rest;
  }

  lemma {:induction false} FramesAppend(paths: seq<Path>, p: Path, files: Artifacts)
    requires p in files && forall q :: q in paths ==> q in files
    ensures Frames(paths + [p], files) == Frames(paths, files) + Frame(p, files[p])
  {
    hide Frame, Frames;
    FramesOfNone(files);
    if paths == [] {
      FramesOfFirst(p, [], files);
      assert [p] + [] == [p] && [] + [p] == [p];
    } else {
      var rest := paths[1..];
      FramesAppend(rest, p, files);
      FramesOfFirst(paths[0], rest, files);
      FramesOfFirst(paths[0], rest + [p], files);
      assert paths == [paths[0]] + rest && paths + [p] == [paths[0]] + (rest + [p]);
    }
  }

  // ----- the digest -----

  /** 64 lower-case hexadecimal digits. */
  predicate IsSha256(s: string) {
    |s| == 64 && forall c :: c in s ==> '0' <= c <= '9' || 'a' <= c <= 'f'
  }

  /** What a hash function writes; nothing else is known of it, and it may well collide. */
  type Sha256 = s: string | IsSha256(s) witness seq(64, _ => '0')

  /** The bytes the hash gets for these artifacts. */
  ghost function Fed(files: Artifacts, less: (Path, Path) -> bool): Bytes
    requires StrictOrder(less)
  {
    ListingMembers(files.Keys, less);
    Frames(Listing(files.Keys, less), files)
  }

  /** The hash of these two artifact maps is the same although the bytes it gets differ. */
  ghost predicate Collide(a: Artifacts, b: Artifacts, less: (Path, Path) -> bool, hash: Bytes -> Sha256)
    requires StrictOrder(less)
  {
    Fed(a, less) != Fed(b, less) && hash(Fed(a, less)) == hash(Fed(b, less))
  }

  /** The digest of the artifacts; there is none of no artifacts. */
  ghost function DigestOf(files: Artifacts, less: (Path, Path) -> bool, hash: Bytes -> Sha256): Option<Digest>
    requires StrictOrder(less)
  {
    if files == map[] then None else Some(Digest(|files|, hash(Fed(files, less))))
  }

  /** The bytes the hash gets determine the whole map: no path and no byte differs. */
  lemma FedDetermines(a: Artifacts, b: Artifacts, less: (Path, Path) -> bool)
    requires StrictOrder(less)
    ensures Fed(a, less) == Fed(b, less) <==> a == b
  {
    hide Frames;
    if Fed(a, less) == Fed(b, less) {
      var ps, qs := Listing(a.Keys, less), Listing(b.Keys, less);
      ListingMembers(a.Keys, less);
      ListingMembers(b.Keys, less);
      FramesUnambiguous(ps, a, qs, b);
      assert forall p :: p in a <==> p in ps;
      assert forall p :: p in b <==> p in qs;
      assert a.Keys == b.Keys;
    }
  }

  /** Whatever the hash, equal digests mean equal artifacts or as many files and a collision of these very inputs. */
  lemma DigestDetermines(a: Artifacts, b: Artifacts, less: (Path, Path) -> bool, hash: Bytes -> Sha256)
    requires StrictOrder(less)
    ensures DigestOf(a, less, hash) == DigestOf(b, less, hash)
            <==> a == b || (a != map[] && b != map[] && |a| == |b| && Collide(a, b, less, hash))
  {
    hide Fed;
    FedDetermines(a, b, less);
  }

  /** No two artifact maps are bound to collide: for any two there are hashes that tell them apart. */
  lemma SomeHashSeparates(a: Artifacts, b: Artifacts, less: (Path, Path) -> bool) returns (hash: Bytes -> Sha256)
    requires StrictOrder(less)
    ensures !Collide(a, b, less, hash)
  {
    hide Fed;
    var zeros: Sha256, ones: Sha256 := seq(64, _ => '0'), seq(64, _ => '1');
    assert zeros[0] != ones[0];
    var first := Fed(a, less);
    hash := (x: Bytes) => if x == first then zeros else ones;
  }

  method ClientArtifactDigest(files: Artifacts, found: seq<Path>, less: (Path, Path) -> bool, hash: Bytes -> Sha256)
    returns (r: Option<Digest>)
    requires StrictOrder(less)
    requires Distinct(found) && forall p :: p in found <==> p in files
    ensures r == DigestOf(files, less, hash)
  {
    hide Frame, SortBy;
    var leq := (p: Path, q: Path) => !less(q, p);
    var paths := SortBy(found, leq);
    SortedListing(found, files.Keys, less, leq);
    DistinctSize(found, files.Keys);
    SortPermutes(found, leq);
    assert |paths| == |multiset(paths)| == |found|;
    if |paths| == 0 {
      return None;
    }
    var fed: Bytes := [];
    for i := 0 to |paths|
      invariant fed == Frames(paths[..i], files)
    {
      var path := paths[i];
      assert paths[..i + 1] == paths[..i] + [path];
      FramesAppend(paths[..i], path, files);
      fed := Feed(fed, path, files[path]);
    }
    assert paths[..|paths|] == paths;
    r := Some(Digest(|paths|, hash(fed)));
  }

  /** The four updates the hash gets for one file. */
  method Feed(fed: Bytes, path: Path, content: Bytes) returns (more: Bytes)
    ensures more == fed + Frame(path, content)
  {
    hide Digits;
    more := fed + (Digits(|path|) + [COLON]);
    more := more + path;
    more := more + (Digits(|content|) + [COLON]);
    more := more + content;
    assert more == fed + ((Digits(|path|) + ([COLON] + path)) + (Digits(|content|) + ([COLON] + content)));
  }

  // ----- writing and reading the record -----

  /** The public part of an environment. */
  function ClientBuildEnvironment(environment: Environment): Environment {
    map name | name in environment && PREFIX <= name :: environment[name]
  }

  /** The variables of an environment that a client build may read, each with its value. */
  ghost predicate IsPublicPart(public: Environment, environment: Environment) {
    && (forall name :: name in public ==>
          name in environment && public[name] == environment[name] && "DSH_CLIENT_" <= name)
    && (forall name :: name in environment && "DSH_CLIENT_" <= name ==> name in public)
  }

  lemma PublicExactly(public: Environment, environment: Environment)
    ensures public == ClientBuildEnvironment(environment) <==> IsPublicPart(public, environment)
  {
  }

  ghost predicate Wellformed(r: Record) {
    && (forall name :: name in r.environment ==> PREFIX <= name)
    && 1 <= r.artifacts.fileCount <= MAX_SAFE_INTEGER
    && IsSha256(r.artifacts.sha256)
  }

  ghost function Write(files: Artifacts, environment: Environment, less: (Path, Path) -> bool,
                       hash: Bytes -> Sha256): Option<Record>
    requires StrictOrder(less)
  {
    var d := DigestOf(files, less, hash);
    if d.None? then None else Some(Record(ClientBuildEnvironment(environment), d.value))
  }

  ghost function Read(stored: Option<Record>, expected: Option<Environment>, files: Artifacts,
                      less: (Path, Path) -> bool, hash: Bytes -> Sha256): Reading
    requires StrictOrder(less)
  {
    if stored.None? then Missing
    else if !Wellformed(stored.value) then Invalid
    else if expected.Some? && ClientBuildEnvironment(stored.value.environment) != expected.value then EnvironmentDiffers
    else
      var current := DigestOf(files, less, hash);
      if current.None? then NoArtifacts
      else if current.value != stored.value.artifacts then ArtifactsDiffer
      else Verified(stored.value)
  }

  /**
   * A record just written reads back exactly when the environment is the one expected and the artifacts are
   * unchanged, or their hash collides with that of the artifacts written.
   */
  lemma ReadAfterWrite(written: Artifacts, environment: Environment, expected: Option<Environment>, files: Artifacts,
                       less: (Path, Path) -> bool, hash: Bytes -> Sha256)
    requires StrictOrder(less) && Write(written, environment, less, hash).Some?
    ensures Read(Write(written, environment, less, hash), expected, files, less, hash).Verified? <==>
            && (files == written || (files != map[] && |files| == |written| && Collide(written, files, less, hash)))
            && |written| <= MAX_SAFE_INTEGER
            && (expected.None? || IsPublicPart(expected.value, environment))
  {
    hide IsSha256, DigestOf, Collide, IsPublicPart;
    if expected.Some? {
      PublicExactly(expected.value, environment);
    }
    var public := ClientBuildEnvironment(environment);
    assert ClientBuildEnvironment(public) == public;
    DigestDetermines(written, files, less, hash);
    DigestShape(written, less, hash);
    DigestShape(files, less, hash);
  }

  /** A fresh record holds the public part of the environment, the number of artifacts and their digest. */
  lemma WrittenRecord(files: Artifacts, environment: Environment, less: (Path, Path) -> bool, hash: Bytes -> Sha256)
    requires StrictOrder(less)
    ensures Write(files, environment, less, hash).Some? <==> files != map[]
    ensures files != map[] ==>
              var r := Write(files, environment, less, hash).value;
              && IsPublicPart(r.environment, environment) && r.artifacts.fileCount == |files|
              && r.artifacts.sha256 == hash(Fed(files, less))
  {
    hide IsPublicPart, Fed;
    PublicExactly(ClientBuildEnvironment(environment), environment);
  }

  lemma DigestShape(files: Artifacts, less: (Path, Path) -> bool, hash: Bytes -> Sha256)
    requires StrictOrder(less)
    ensures var d := DigestOf(files, less, hash);
            (d.None? <==> files == map[]) && (d.Some? ==> d.value.fileCount == |files| >= 1 && IsSha256(d.value.sha256))
  {
    hide Fed, IsSha256;
  }
}
