/** The session format catalog: an unordered inventory of migrations made into one gap-free chain. */
module SessionFormatChain {

  import opened Decimal
  import opened Options
  import opened Ordering

  /** A manifest member as JSON gives it; negative zero and unsafe numbers are `Other`. */
  datatype Json = Absent | Text(text: string) | Number(n: int) | Other

  datatype Metadata = Metadata(from: Json, to: Json, exportPath: Json, migration: Json, sourceCodec: Json,
                               targetCodec: Json, targetHeaderValidator: Json, targetRestorer: Json,
                               unknownMember: bool)

  /** One discovered package: the versions its directory is named after, and its manifest. */
  datatype Manifest =
    | NoMetadata
    | Manifest(dirFrom: nat, dirTo: nat, name: Json, metadata: Metadata, dependencies: set<string>)

  datatype Declaration = Declaration(packageName: string, importPath: string, from: nat, to: nat, migration: string,
                                     sourceCodec: string, targetCodec: string, targetHeaderValidator: string,
                                     targetRestorer: string, dependencies: set<string>)

  datatype Result<T> = Ok(value: T) | Err(error: Error)

  datatype Error =
    | LacksMetadata | UnknownMember | NotAString | NotAVersion | NotAdjacent | WrongName | WrongDirectory
    | NotExactlyOne(version: nat, found: nat) | DoesNotEnd | SessionNotShared
    | LacksDependency(name: string) | CodecBroken(from: nat) | PreviousNotShared(from: nat)

  /** What the catalog package itself declares. */
  datatype Catalog = Catalog(dependencies: set<string>, sessionIsDependency: bool, sessionIsPeer: bool,
                             sessionIsDev: bool)

  // ----- one manifest -----

  predicate IsVersion(j: Json) {
    j.Number? && 0 <= j.n <= MAX_SAFE_INTEGER
  }

  predicate IsNonempty(j: Json) {
    j.Text? && j.text != ""
  }

  function Numeral(n: nat): string {
    var digit := ['0' + (n % 10) as char];
    if n < 10 then digit else Numeral(n / 10) + digit
  }

  function NumeralValue(s: string): nat
    requires forall i :: 0 <= i < |s| ==> '0' <= s[i] <= '9'
  {
    if s == "" then 0 else 10 * NumeralValue(s[..|s| - 1]) + (s[|s| - 1] - '0') as nat
  }

  /** The decimal numeral: digits that read back as the number, and no leading zero. */
  lemma {:induction false} NumeralExactly(n: nat)
    ensures var s := Numeral(n);
            && s != "" && (forall i :: 0 <= i < |s| ==> '0' <= s[i] <= '9') && NumeralValue(s) == n
            && (n > 0 ==> s[0] != '0')
  {
    var s := Numeral(n);
    if n >= 10 {
      NumeralExactly(n / 10);
      assert s[..|s| - 1] == Numeral(n / 10);
    } else {
      assert NumeralValue("") == 0 && s[..0] == "";
    }
  }

  function PackageName(from: nat, to: nat): string {
    "@deepseek-ai/dsh-session-format-v" + Numeral(from) + "-to-v" + Numeral(to)
  }

  function ImportPath(packageName: string, exportPath: string): string {
    if exportPath == "." then packageName
    else packageName + "/" + (if "./" <= exportPath then exportPath[2..] else exportPath)
  }

  function Declare(m: Manifest): Result<Declaration> {
    if m.NoMetadata? then Err(LacksMetadata)
    else
      var d := m.metadata;
      if d.unknownMember then Err(UnknownMember)
      else if !IsNonempty(m.name) then Err(NotAString)
      else if !IsVersion(d.from) || !IsVersion(d.to) then Err(NotAVersion)
      else if d.to.n != d.from.n + 1 then Err(NotAdjacent)
      else if m.name.text != PackageName(d.from.n, d.to.n) then Err(WrongName)
      else if m.dirFrom != d.from.n || m.dirTo != d.to.n then Err(WrongDirectory)
      else if !(IsNonempty(d.exportPath) && IsNonempty(d.migration) && IsNonempty(d.sourceCodec)
                && IsNonempty(d.targetCodec) && IsNonempty(d.targetHeaderValidator)
                && IsNonempty(d.targetRestorer)) then Err(NotAString)
      else Ok(Declaration(m.name.text, ImportPath(m.name.text, d.exportPath.text), d.from.n, d.to.n, d.migration.text,
                          d.sourceCodec.text, d.targetCodec.text, d.targetHeaderValidator.text, d.targetRestorer.text,
                          m.dependencies))
  }

  /** The declaration says what the manifest's members of the same names say. */
  ghost predicate Tells(d: Declaration, m: Manifest) {
    && m.Manifest? && m.name == Text(d.packageName) && m.dependencies == d.dependencies
    && m.metadata.from == Number(d.from) && m.metadata.to == Number(d.to) && d.to == d.from + 1
    && m.metadata.migration == Text(d.migration)
    && m.metadata.sourceCodec == Text(d.sourceCodec) && m.metadata.targetCodec == Text(d.targetCodec)
    && m.metadata.targetHeaderValidator == Text(d.targetHeaderValidator)
    && m.metadata.targetRestorer == Text(d.targetRestorer)
    && d.packageName == "@deepseek-ai/dsh-session-format-v" + Numeral(d.from) + "-to-v" + Numeral(d.to)
    && m.metadata.exportPath.Text? && Imports(d.importPath, d.packageName, m.metadata.exportPath.text)
  }

  /** The package itself for its main export, and otherwise the path below it that the export names. */
  ghost predicate Imports(importPath: string, packageName: string, exportPath: string) {
    if exportPath == "." then importPath == packageName
    else exists rest :: importPath == packageName + "/" + rest
                        && (exportPath == "./" + rest || (exportPath == rest && !("./" <= rest)))
  }

  /** The names are not empty, the versions safe integers, the directory is named after them, and nothing is unknown. */
  ghost predicate Valid(m: Manifest) {
    && m.Manifest? && !m.metadata.unknownMember
    && Text("") !in [m.name, m.metadata.exportPath, m.metadata.migration, m.metadata.sourceCodec,
                     m.metadata.targetCodec, m.metadata.targetHeaderValidator, m.metadata.targetRestorer]
    && m.metadata.from == Number(m.dirFrom) && m.metadata.to == Number(m.dirTo)
    && m.dirTo <= 9007199254740991
  }

  /** A manifest yields a declaration exactly when it is valid and the declaration tells what it says. */
  lemma DeclareExactly(m: Manifest, d: Declaration)
    ensures Declare(m) == Ok(d) <==> Valid(m) && Tells(d, m)
  {
    hide Numeral;
    if Declare(m) == Ok(d) {
      ImportsExactly(m.name.text, m.metadata.exportPath.text, d.importPath);
    }
    if Valid(m) && Tells(d, m) {
      ImportsExactly(d.packageName, m.metadata.exportPath.text, d.importPath);
    }
  }

  lemma ImportsExactly(packageName: string, exportPath: string, importPath: string)
    ensures ImportPath(packageName, exportPath) == importPath <==> Imports(importPath, packageName, exportPath)
  {
    if exportPath != "." {
      var rest := if "./" <= exportPath then exportPath[2..] else exportPath;
      assert "./" <= exportPath ==> exportPath == "./" + rest;
      if r :| importPath == packageName + "/" + r && (exportPath == "./" + r || (exportPath == r && !("./" <= r))) {
        if exportPath == "./" + r {
          assert exportPath[2..] == r;
        }
      }
    }
  }

  ghost predicate AllDeclare(ms: seq<Manifest>) {
    forall m :: m in ms ==> Declare(m).Ok?
  }

  function Declarations(ms: seq<Manifest>): (ds: seq<Declaration>)
    requires AllDeclare(ms)
  {
    if ms == [] then [] else Declarations(ms[..|ms| - 1]) + [Declare(ms[|ms| - 1]).value]
  }

  lemma {:induction false} DeclarationsAdjacent(ms: seq<Manifest>)
    requires AllDeclare(ms)
    ensures forall d :: d in Declarations(ms) ==> d.to == d.from + 1
  {
    if ms != [] {
      DeclarationsAdjacent(ms[..|ms| - 1]);
      assert ms[|ms| - 1] in ms;
    }
  }

  // ----- the chain -----

  /** Entry `i` migrates version `i` to `i + 1`, continues its predecessor's codec and depends on its package. */
  ghost predicate IsChain(c: seq<Declaration>, current: nat, catalog: Catalog) {
    && |c| == current
    && (forall i :: 0 <= i < current ==> c[i].from == i && c[i].to == i + 1 && c[i].packageName in catalog.dependencies)
    && (forall i :: 0 < i < current ==>
          c[i].sourceCodec == c[i - 1].targetCodec && c[i - 1].packageName in c[i].dependencies)
  }

  predicate SessionShared(catalog: Catalog) {
    !catalog.sessionIsDependency && catalog.sessionIsPeer && catalog.sessionIsDev
  }

  ghost predicate Arranges(c: seq<Declaration>, ds: seq<Declaration>, current: nat, catalog: Catalog) {
    multiset(c) == multiset(ds) && IsChain(c, current, catalog)
  }

  /** Every manifest is valid and together they can be arranged as the chain from 0 to the current version. */
  ghost predicate Acceptable(ms: seq<Manifest>, current: nat, catalog: Catalog) {
    && AllDeclare(ms) && SessionShared(catalog)
    && exists c :: Arranges(c, Declarations(ms), current, catalog)
  }

  function ByFrom(): (Declaration, Declaration) -> bool {
    (a: Declaration, b: Declaration) => a.from <= b.from
  }

  /** Sorted by source version: entry `i` is version `i`. */
  ghost predicate Gapless(c: seq<Declaration>) {
    forall i :: 0 <= i < |c| ==> c[i].from == i
  }

  ghost predicate Climbs(s: seq<Declaration>) {
    forall i, j :: 0 <= i < j < |s| ==> s[i].from < s[j].from
  }

  lemma {:induction false} ClimbsFast(s: seq<Declaration>, i: nat)
    requires Climbs(s) && i < |s|
    ensures s[i].from >= i
    decreases i
  {
    if i > 0 {
      ClimbsFast(s, i - 1);
    }
  }

  lemma {:induction false} ClimbsNoHigher(s: seq<Declaration>, i: nat)
    requires Climbs(s) && i < |s| && forall d :: d in s ==> d.from < |s|
    ensures s[i].from <= i
    decreases |s| - i
  {
    if i + 1 < |s| {
      ClimbsNoHigher(s, i + 1);
    }
  }

  /** As many versions as there are places, none twice and none too high, leave no gap. */
  lemma ClimbsIsGapless(s: seq<Declaration>)
    requires Climbs(s) && forall d :: d in s ==> d.from < |s|
    ensures Gapless(s)
  {
    forall i | 0 <= i < |s| ensures s[i].from == i {
      ClimbsFast(s, i);
      ClimbsNoHigher(s, i);
    }
  }

  /** Sorting an inventory that can be arranged without gaps arranges it so. */
  lemma SortFinds(ds: seq<Declaration>, c: seq<Declaration>)
    requires multiset(c) == multiset(ds) && Gapless(c)
    ensures SortBy(ds, ByFrom()) == c
  {
    hide SortBy;
    var s := SortBy(ds, ByFrom());
    SortSorts(ds, ByFrom());
    SortPermutes(ds, ByFrom());
    assert |s| == |multiset(s)| == |multiset(c)| == |c|;
    assert Distinct(c);
    PermutedDistinct(c, s);
    forall i | 0 <= i < |s| ensures s[i].from < |s| && s[i] == c[s[i].from] {
      PermutedMember(s, c, s[i]);
      assert s[i] in c;
    }
    forall i, j | 0 <= i < j < |s| ensures s[i].from < s[j].from {
      assert ByFrom()(s[i], s[j]);
    }
    ClimbsIsGapless(s);
  }

  function Matches(ds: seq<Declaration>, version: nat): seq<Declaration> {
    if ds == [] then []
    else (if ds[0].from == version then [ds[0]] else []) + Matches(ds[1..], version)
  }

  lemma {:induction false} MatchesLater(c: seq<Declaration>, version: nat)
    requires forall d :: d in c ==> d.from > version
    ensures Matches(c, version) == []
  {
    if c != [] {
      MatchesLater(c[1..], version);
    }
  }

  lemma {:induction false} OneMatchEach(c: seq<Declaration>, first: nat, version: nat)
    requires forall i :: 0 <= i < |c| ==> c[i].from == first + i
    requires first <= version < first + |c|
    ensures |Matches(c, version)| == 1
    decreases |c|
  {
    if first == version {
      MatchesLater(c[1..], version);
    } else {
      OneMatchEach(c[1..], first + 1, version);
    }
  }

  lemma {:induction false} MatchesCount(ds: seq<Declaration>, i: nat, j: nat, version: nat)
    requires i < j < |ds| && ds[i].from == version && ds[j].from == version
    ensures |Matches(ds, version)| >= 2
  {
    if i == 0 {
      MatchesSome(ds[1..], j - 1, version);
    } else {
      MatchesCount(ds[1..], i - 1, j - 1, version);
    }
  }

  lemma {:induction false} MatchesSome(ds: seq<Declaration>, j: nat, version: nat)
    requires j < |ds| && ds[j].from == version
    ensures |Matches(ds, version)| >= 1
  {
    if j > 0 {
      MatchesSome(ds[1..], j - 1, version);
    }
  }

  // ----- collecting -----

  method DeclareAll(ms: seq<Manifest>) returns (r: Result<seq<Declaration>>)
    ensures r.Ok? <==> AllDeclare(ms)
    ensures r.Ok? ==> r.value == Declarations(ms)
  {
    hide Declare;
    var declarations := [];
    for i := 0 to |ms|
      invariant AllDeclare(ms[..i]) && declarations == Declarations(ms[..i])
    {
      assert ms[..i + 1][..i] == ms[..i] && ms[i] in ms;
      var d := Declare(ms[i]);
      if d.Err? {
        return Err(d.error);
      }
      declarations := declarations + [d.value];
    }
    assert ms[..|ms|] == ms;
    r := Ok(declarations);
  }

  /** The checks on the sorted inventory: one entry per version, none past the current one. */
  method CheckVersions(declarations: seq<Declaration>, current: nat) returns (r: Result<()>)
    requires Sorted(declarations, ByFrom())
    ensures r.Ok? <==> |declarations| == current && Gapless(declarations)
  {
    for version := 0 to current
      invariant forall v :: 0 <= v < version ==> |Matches(declarations, v)| == 1
    {
      var matches := Matches(declarations, version);
      if |matches| != 1 {
        GaplessMatches(declarations, current, version);
        return Err(NotExactlyOne(version, |matches|));
      }
    }
    if (exists d :: d in declarations && d.from >= current) || |declarations| != current {
      return Err(DoesNotEnd);
    }
    OnceEach(declarations, current);
    r := Ok(());
  }

  lemma GaplessMatches(ds: seq<Declaration>, current: nat, version: nat)
    requires version < current
    ensures |ds| == current && Gapless(ds) ==> |Matches(ds, version)| == 1
  {
    if |ds| == current && Gapless(ds) {
      OneMatchEach(ds, 0, version);
    }
  }

  lemma OnceEach(ds: seq<Declaration>, current: nat)
    requires Sorted(ds, ByFrom()) && |ds| == current && forall d :: d in ds ==> d.from < current
    requires forall v :: 0 <= v < current ==> |Matches(ds, v)| == 1
    ensures Gapless(ds)
  {
    hide Matches;
    forall i, j | 0 <= i < j < |ds| ensures ds[i].from < ds[j].from {
      assert ByFrom()(ds[i], ds[j]);
      if ds[i].from == ds[j].from {
        assert ds[i] in ds;
        MatchesCount(ds, i, j, ds[i].from);
      }
    }
    ClimbsIsGapless(ds);
  }

  /** The checks along the sorted inventory: catalog dependencies, and codecs that continue. */
  method CheckLinks(declarations: seq<Declaration>, catalog: Catalog) returns (r: Result<()>)
    requires Gapless(declarations) && forall d :: d in declarations ==> d.to == d.from + 1
    ensures r.Ok? <==> IsChain(declarations, |declarations|, catalog)
  {
    for index := 0 to |declarations|
      invariant forall i :: 0 <= i < index ==> declarations[i].packageName in catalog.dependencies
      invariant forall i :: 0 < i < index ==>
                  declarations[i].sourceCodec == declarations[i - 1].targetCodec
                  && declarations[i - 1].packageName in declarations[i].dependencies
    {
      var declaration := declarations[index];
      if declaration.packageName !in catalog.dependencies {
        return Err(LacksDependency(declaration.packageName));
      }
      if index > 0 {
        var previous := declarations[index - 1];
        if declaration.sourceCodec != previous.targetCodec {
          return Err(CodecBroken(declaration.from));
        }
        if previous.packageName !in declaration.dependencies {
          return Err(PreviousNotShared(declaration.from));
        }
      }
    }
    r := Ok(());
  }

  /** The inventory is accepted exactly when it can be arranged as a chain, and the result is that chain. */
  method CollectSessionFormatMigrations(ms: seq<Manifest>, current: nat, catalog: Catalog)
    returns (r: Result<seq<Declaration>>)
    ensures r.Ok? <==> Acceptable(ms, current, catalog)
    ensures r.Ok? ==> Arranges(r.value, Declarations(ms), current, catalog)
  {
    hide IsChain, SortBy, Declarations, Gapless, AllDeclare;
    var declared := DeclareAll(ms);
    if declared.Err? {
      return Err(declared.error);
    }
    var declarations := SortBy(declared.value, ByFrom());
    SortFacts(ms);
    if c :| Arranges(c, Declarations(ms), current, catalog) {
      ChainIsGapless(c, current, catalog);
      SortFinds(declared.value, c);
    }
    var versions := CheckVersions(declarations, current);
    if versions.Err? {
      return Err(versions.error);
    }
    if !SessionShared(catalog) {
      return Err(SessionNotShared);
    }
    var links := CheckLinks(declarations, catalog);
    if links.Err? {
      return Err(links.error);
    }
    r := Ok(declarations);
    assert Arranges(declarations, Declarations(ms), current, catalog);
  }

  /** Every entry of an accepted catalog tells what one of the manifests says. */
  lemma EntryTells(ms: seq<Manifest>, c: seq<Declaration>, current: nat, catalog: Catalog, i: nat) returns (m: Manifest)
    requires AllDeclare(ms) && Arranges(c, Declarations(ms), current, catalog) && i < |c|
    ensures m in ms && Tells(c[i], m)
  {
    hide Declare, Tells, IsChain, Declarations;
    assert c[i] in c;
    PermutedMember(c, Declarations(ms), c[i]);
    m := DeclaredBy(ms, c[i]);
    DeclareExactly(m, c[i]);
  }

  lemma {:induction false} DeclaredBy(ms: seq<Manifest>, d: Declaration) returns (m: Manifest)
    requires AllDeclare(ms) && d in Declarations(ms)
    ensures m in ms && Declare(m) == Ok(d)
  {
    hide Declare;
    var n := |ms| - 1;
    assert ms[n] in ms;
    if Declare(ms[n]).value == d {
      m := ms[n];
    } else {
      m := DeclaredBy(ms[..n], d);
    }
  }

  lemma SortFacts(ms: seq<Manifest>)
    requires AllDeclare(ms)
    ensures var s := SortBy(Declarations(ms), ByFrom());
            && Sorted(s, ByFrom()) && multiset(s) == multiset(Declarations(ms))
            && (forall d :: d in s ==> d.to == d.from + 1)
  {
    hide SortBy, Declarations;
    var ds := Declarations(ms);
    SortSorts(ds, ByFrom());
    SortPermutes(ds, ByFrom());
    DeclarationsAdjacent(ms);
    forall d | d in SortBy(ds, ByFrom()) ensures d in ds {
      PermutedMember(SortBy(ds, ByFrom()), ds, d);
    }
  }

  lemma ChainIsGapless(c: seq<Declaration>, current: nat, catalog: Catalog)
    requires IsChain(c, current, catalog)
    ensures Gapless(c) && |c| == current
  {
  }

  /** The order in which the manifests are found does not matter: an inventory has one chain. */
  lemma OneChain(ds: seq<Declaration>, other: seq<Declaration>, c: seq<Declaration>, d: seq<Declaration>, current: nat,
                 catalog: Catalog)
    requires multiset(ds) == multiset(other)
    requires Arranges(c, ds, current, catalog) && Arranges(d, other, current, catalog)
    ensures c == d
  {
    hide SortBy;
    SortFinds(ds, c);
    SortFinds(ds, d);
  }

  // ----- rendering -----

  /** The lists the generated catalog assembles. */
  datatype Rendered = Rendered(codecs: seq<string>, migrations: seq<string>, currentEncoder: string)

  function TargetCodecs(ds: seq<Declaration>): seq<string> {
    seq(|ds|, i requires 0 <= i < |ds| => ds[i].targetCodec)
  }

  function Migrations(ds: seq<Declaration>): seq<string> {
    seq(|ds|, i requires 0 <= i < |ds| => ds[i].migration)
  }

  function Codecs(ds: seq<Declaration>): seq<string> {
    if ds == [] then [] else [ds[0].sourceCodec] + TargetCodecs(ds)
  }

  /** Rendering fails when there is no last declaration to take the current format from. */
  function RenderSessionFormatCatalog(ds: seq<Declaration>): Option<Rendered> {
    if ds == [] then None else Some(Rendered(Codecs(ds), Migrations(ds), ds[|ds| - 1].targetCodec))
  }

  lemma CodecsLie(ds: seq<Declaration>)
    requires ds != []
    ensures |Codecs(ds)| == |ds| + 1 && Codecs(ds)[0] == ds[0].sourceCodec
    ensures forall i :: 0 <= i < |ds| ==> Codecs(ds)[i + 1] == ds[i].targetCodec
  {
    forall i | 0 <= i < |ds| ensures Codecs(ds)[i + 1] == ds[i].targetCodec {
      assert TargetCodecs(ds)[i] == ds[i].targetCodec;
    }
  }

  /** One codec per version: codec `i` is the source of migration `i` and the target of the one before it. */
  lemma CodecPerVersion(c: seq<Declaration>, current: nat, catalog: Catalog)
    requires IsChain(c, current, catalog)
    ensures RenderSessionFormatCatalog(c).Some? <==> current > 0
    ensures current > 0 ==>
              var r := RenderSessionFormatCatalog(c).value;
              && |r.codecs| == current + 1 && |r.migrations| == current && r.currentEncoder == r.codecs[current]
              && forall i :: 0 <= i < current ==>
                   && r.migrations[i] == c[i].migration && r.codecs[i] == c[i].sourceCodec
                   && r.codecs[i + 1] == c[i].targetCodec
  {
    hide Codecs, TargetCodecs;
    if current > 0 {
      CodecsLie(c);
      forall i | 0 <= i < current ensures Codecs(c)[i] == c[i].sourceCodec && Codecs(c)[i + 1] == c[i].targetCodec {
        if i > 0 {
          assert Codecs(c)[(i - 1) + 1] == c[i - 1].targetCodec;
        }
      }
    }
  }
}
