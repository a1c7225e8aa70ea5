/** Schema key paths such as `agents[].id`: parsing them inverts writing them. */
module SchemaKeys {
  import opened SchemaPaths
  import opened Text

  predicate EndsWithHop(s: string) {
    |s| >= 2 && s[|s| - 2..] == "[]"
  }

  /** The steps of one dot-separated segment: its name, then one hop for each trailing `[]`. */
  function SegmentSteps(seg: string): seq<Step>
    decreases |seg|
  {
    if EndsWithHop(seg) then SegmentSteps(seg[..|seg| - 2]) + [Element] else [Member(seg)]
  }

  function PathSteps(segs: seq<string>): seq<Step> {
    if segs == [] then [] else PathSteps(segs[..|segs| - 1]) + SegmentSteps(segs[|segs| - 1])
  }

  function Hops(n: nat): seq<Step> {
    seq(n, _ => Element)
  }

  method ParsePath(path: string) returns (steps: seq<Step>)
    ensures steps == PathSteps(Split(path, '.'))
  {
    hide SegmentSteps;
    steps := [];
    var segs := Split(path, '.');
    var k := 0;
    while k < |segs|
      invariant k <= |segs| && steps == PathSteps(segs[..k])
    {
      var more := ParseSegment(segs[k]);
      assert segs[..k + 1][..k] == segs[..k];
      steps := steps + more;
      k := k + 1;
    }
    assert segs[..k] == segs;
  }

  /** The loop body: strip the array hops, then push the name and the hops. */
  method ParseSegment(seg: string) returns (steps: seq<Step>)
    ensures steps == SegmentSteps(seg)
  {
    hide Hops;
    var name := seg;
    var arrays := 0;
    NoHops();
    while EndsWithHop(name)
      invariant SegmentSteps(seg) == SegmentSteps(name) + Hops(arrays)
      decreases |name|
    {
      OneMoreHop(SegmentSteps(name[..|name| - 2]), arrays);
      name := name[..|name| - 2];
      arrays := arrays + 1;
    }
    steps := [Member(name)];
    var i := 0;
    while i < arrays
      invariant i <= arrays && steps == [Member(name)] + Hops(i)
    {
      OneMoreHop([Member(name)], i);
      HopsEnd(i);
      steps := steps + [Element];
      i := i + 1;
    }
  }

  lemma NoHops()
    ensures Hops(0) == []
  {
  }

  lemma OneMoreHop(s: seq<Step>, n: nat)
    ensures (s + [Element]) + Hops(n) == s + Hops(n + 1)
  {
  }

  lemma HopsEnd(n: nat)
    ensures Hops(n) + [Element] == Hops(n + 1)
  {
  }

  /** One segment as written: a name and its array hops. */
  datatype PathKey = PathKey(name: string, hops: nat)

  function Write(key: PathKey): string
    decreases key.hops
  {
    if key.hops == 0 then key.name else Write(key.(hops := key.hops - 1)) + "[]"
  }

  function WriteAll(keys: seq<PathKey>): (parts: seq<string>)
    ensures |parts| == |keys|
  {
    seq(|keys|, i requires 0 <= i < |keys| => Write(keys[i]))
  }

  function StepsOf(keys: seq<PathKey>): seq<Step> {
    if keys == [] then []
    else StepsOf(keys[..|keys| - 1]) + [Member(keys[|keys| - 1].name)] + Hops(keys[|keys| - 1].hops)
  }

  predicate Writable(key: PathKey) {
    '.' !in key.name && !EndsWithHop(key.name)
  }

  lemma {:induction false} SegmentOfWritten(key: PathKey)
    requires Writable(key)
    ensures SegmentSteps(Write(key)) == [Member(key.name)] + Hops(key.hops)
    ensures '.' !in Write(key)
    decreases key.hops
  {
    if key.hops > 0 {
      var fewer := key.(hops := key.hops - 1);
      SegmentOfWritten(fewer);
      var s := Write(key);
      assert s[|s| - 2..] == "[]" && s[..|s| - 2] == Write(fewer);
      assert Hops(key.hops) == Hops(fewer.hops) + [Element];
    }
  }

  lemma {:induction false} StepsOfWritten(keys: seq<PathKey>)
    requires forall k :: k in keys ==> Writable(k)
    ensures PathSteps(WriteAll(keys)) == StepsOf(keys)
  {
    if keys != [] {
      var n := |keys| - 1;
      StepsOfWritten(keys[..n]);
      assert WriteAll(keys)[..n] == WriteAll(keys[..n]);
      assert keys[n] in keys;
      SegmentOfWritten(keys[n]);
    }
  }

  /** Parsing a written path gives back its names and hops. */
  lemma ParseInvertsWrite(keys: seq<PathKey>)
    requires keys != [] && forall k :: k in keys ==> Writable(k)
    ensures PathSteps(Split(Join(WriteAll(keys), '.'), '.')) == StepsOf(keys)
  {
    var parts := WriteAll(keys);
    forall p | p in parts ensures '.' !in p {
      var i :| 0 <= i < |parts| && parts[i] == p;
      assert keys[i] in keys;
      SegmentOfWritten(keys[i]);
    }
    SplitJoin(parts, '.');
    StepsOfWritten(keys);
  }
}
