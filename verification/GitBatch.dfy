/** The parser of the stream `git cat-file --batch` answers with, against the format of that stream. */
module GitBatch {

  import opened Decimal
  import opened Options
  import opened Text

  const LF: Byte := 10

  const SPACE: Byte := 32

  /** The bytes of " missing". */
  const MISSING_SUFFIX: Bytes := [32, 109, 105, 115, 115, 105, 110, 103]

  type Path = string

  datatype Parsed =
    | Contents(files: map<Path, Bytes>)
    | NoHeader(path: Path)
    | NoSuchPath(path: Path)
    | InvalidSize(path: Path)
    | Truncated(path: Path)

  // ----- the format -----

  /** One answer: the object's name and type, and its content. */
  datatype Answer = Answer(oid: Bytes, kind: Bytes, content: Bytes)

  predicate IsWord(s: Bytes) {
    forall i :: 0 <= i < |s| ==> s[i] != LF && s[i] != SPACE
  }

  predicate WellFormed(a: Answer) {
    IsWord(a.oid) && IsWord(a.kind) && |a.content| <= MAX_SAFE_INTEGER
  }

  function Header(a: Answer): Bytes {
    a.oid + ([SPACE] + (a.kind + ([SPACE] + Digits(|a.content|))))
  }

  function Encode(a: Answer): Bytes {
    Header(a) + ([LF] + (a.content + [LF]))
  }

  function EncodeAll(answers: seq<Answer>): Bytes {
    if answers == [] then [] else Encode(answers[0]) + EncodeAll(answers[1..])
  }

  // ----- the parser -----

  predicate EndsWith(s: Bytes, suffix: Bytes) {
    |s| >= |suffix| && s[|s| - |suffix|..] == suffix
  }

  predicate IsAsciiSpace(b: Byte) {
    b == SPACE || 9 <= b <= 13
  }

  /** `Number.parseInt(text, 10)`: whitespace, a sign, then the leading digits; nothing when there are none. */
  function ParseInt(text: Bytes): Option<int> {
    if text != [] && IsAsciiSpace(text[0]) then ParseInt(text[1..])
    else if text != [] && text[0] == 45 then Negated(ParseDigits(text[1..]))
    else if text != [] && text[0] == 43 then ParseDigits(text[1..])
    else ParseDigits(text)
  }

  function ParseDigits(text: Bytes): Option<int> {
    var n := DigitRun(text);
    if n == 0 then None else Some(Value(text[..n]))
  }

  function Negated(n: Option<int>): Option<int> {
    if n.None? then None else Some(-n.value)
  }

  /** The content size a header declares, when it is a safe non-negative integer. */
  function DeclaredSize(header: Bytes): Option<nat> {
    var fields := Split(header, SPACE);
    var size := ParseInt(if |fields| > 2 then fields[2] else []);
    if size.None? || size.value < 0 || size.value > MAX_SAFE_INTEGER then None else Some(size.value)
  }

  /** Where the content of the answer at an offset lies, or what is wrong with it. */
  datatype Located = Content(start: nat, end: nat) | Wrong(error: Parsed)

  function Locate(output: Bytes, path: Path, offset: nat): (r: Located)
    ensures r.Content? ==> offset < r.start <= r.end < |output|
    ensures r.Wrong? ==> !r.error.Contents?
  {
    var headerEnd := IndexOf(output, LF, offset);
    if headerEnd < 0 then Wrong(NoHeader(path))
    else
      var header := output[offset..headerEnd];
      if EndsWith(header, MISSING_SUFFIX) then Wrong(NoSuchPath(path))
      else
        var size := DeclaredSize(header);
        if size.None? then Wrong(InvalidSize(path))
        else
          var contentStart, contentEnd := headerEnd + 1, headerEnd + 1 + size.value;
          if contentEnd >= |output| || output[contentEnd] != LF then Wrong(Truncated(path))
          else Content(contentStart, contentEnd)
  }

  function ParseFrom(output: Bytes, paths: seq<Path>, offset: nat, files: map<Path, Bytes>): Parsed
    decreases |paths|
  {
    if paths == [] then Contents(files)
    else
      match Locate(output, paths[0], offset)
      case Wrong(error) => error
      case Content(start, end) => ParseFrom(output, paths[1..], end + 1, files[paths[0] := output[start..end]])
  }

  /** The loop body up to the content: find the header, the size and the closing newline. */
  method ReadAnswer(output: Bytes, path: Path, offset: nat) returns (r: Located)
    ensures r == Locate(output, path, offset)
  {
    hide EndsWith, DeclaredSize;
    var headerEnd := IndexOf(output, LF, offset);
    if headerEnd < 0 {
      return Wrong(NoHeader(path));
    }
    var header := output[offset..headerEnd];
    if EndsWith(header, MISSING_SUFFIX) {
      return Wrong(NoSuchPath(path));
    }
    var size := DeclaredSize(header);
    if size.None? {
      return Wrong(InvalidSize(path));
    }
    var contentStart := headerEnd + 1;
    var contentEnd := contentStart + size.value;
    if contentEnd >= |output| || output[contentEnd] != LF {
      return Wrong(Truncated(path));
    }
    r := Content(contentStart, contentEnd);
  }

  method ReadGitFiles(output: Bytes, paths: seq<Path>) returns (r: Parsed)
    ensures r == ParseFrom(output, paths, 0, map[])
  {
    hide Locate;
    var contents: map<Path, Bytes> := map[];
    var offset: nat := 0;
    for i := 0 to |paths|
      invariant ParseFrom(output, paths, 0, map[]) == ParseFrom(output, paths[i..], offset, contents)
    {
      assert paths[i..][1..] == paths[i + 1..];
      var answer := ReadAnswer(output, paths[i], offset);
      if answer.Wrong? {
        return answer.error;
      }
      contents := contents[paths[i] := output[answer.start..answer.end]];
      offset := answer.end + 1;
    }
    r := Contents(contents);
  }

  // ----- parsing inverts the format -----

  lemma {:induction false} WordIsOneField(word: Bytes, rest: Bytes)
    requires IsWord(word)
    ensures Split(word + ([SPACE] + rest), SPACE) == [word] + Split(rest, SPACE)
    decreases |word|
  {
    var s := word + ([SPACE] + rest);
    if word == [] {
      assert s[1..] == rest;
    } else {
      assert s[1..] == word[1..] + ([SPACE] + rest);
      WordIsOneField(word[1..], rest);
      var fields := [word[1..]] + Split(rest, SPACE);
      assert word == [word[0]] + word[1..] && fields[1..] == Split(rest, SPACE);
    }
  }

  lemma {:induction false} LastField(word: Bytes)
    requires IsWord(word)
    ensures Split(word, SPACE) == [word]
    decreases |word|
  {
    if word != [] {
      LastField(word[1..]);
      assert word == [word[0]] + word[1..];
    }
  }

  lemma DigitsAreAWord(n: nat)
    ensures IsWord(Digits(n)) && ParseInt(Digits(n)) == Some(n)
  {
    var s := Digits(n);
    assert s[0] in s;
    RunOfDigits(s, []);
    assert s + [] == s && s[..|s|] == s;
    ValueOfDigits(n);
  }

  lemma HeaderDeclares(a: Answer)
    requires WellFormed(a)
    ensures DeclaredSize(Header(a)) == Some(|a.content|)
  {
    hide Digits, ParseInt, Split, IsWord;
    var size := Digits(|a.content|);
    WordIsOneField(a.oid, a.kind + ([SPACE] + size));
    WordIsOneField(a.kind, size);
    DigitsAreAWord(|a.content|);
    LastField(size);
    assert Split(Header(a), SPACE) == [a.oid] + ([a.kind] + [size]);
  }

  lemma HeaderIsPlain(a: Answer)
    requires WellFormed(a)
    ensures LF !in Header(a) && !EndsWith(Header(a), MISSING_SUFFIX)
  {
    hide Digits, IsDigit;
    var size, h := Digits(|a.content|), Header(a);
    DigitsAreAWord(|a.content|);
    assert LF !in size;
    assert size[|size| - 1] in size;
    assert h[|h| - 1] == size[|size| - 1];
    assert IsDigit(h[|h| - 1]);
    LastByte(h);
  }

  lemma LastByte(s: Bytes)
    requires s != [] && IsDigit(s[|s| - 1])
    ensures !EndsWith(s, MISSING_SUFFIX)
  {
  }

  /** One answer, wherever it starts, is read whole and leaves the offset just past it. */
  lemma OneAnswer(output: Bytes, offset: nat, a: Answer, paths: seq<Path>, files: map<Path, Bytes>)
    requires WellFormed(a) && paths != []
    requires offset + |Encode(a)| <= |output| && output[offset..offset + |Encode(a)|] == Encode(a)
    ensures ParseFrom(output, paths, offset, files)
         == ParseFrom(output, paths[1..], offset + |Encode(a)|, files[paths[0] := a.content])
  {
    hide Header, WellFormed, EndsWith, DeclaredSize, ParseFrom;
    HeaderIsPlain(a);
    HeaderDeclares(a);
    AnswerParts(output, offset, a);
    ParseStep(output, paths, offset, files, offset + |Header(a)|, |a.content|);
  }

  lemma AnswerParts(output: Bytes, offset: nat, a: Answer)
    requires LF !in Header(a)
    requires offset + |Encode(a)| <= |output| && output[offset..offset + |Encode(a)|] == Encode(a)
    ensures var headerEnd := offset + |Header(a)|;
            && IndexOf(output, LF, offset) == headerEnd && output[offset..headerEnd] == Header(a)
            && headerEnd + 1 + |a.content| < |output| && output[headerEnd + 1 + |a.content|] == LF
            && output[headerEnd + 1..headerEnd + 1 + |a.content|] == a.content
            && headerEnd + 1 + |a.content| + 1 == offset + |Encode(a)|
  {
    hide Header;
    var e, h, c := Encode(a), |Header(a)|, |a.content|;
    assert e[..h] == Header(a) && e[h] == LF && e[h + 1..h + 1 + c] == a.content && e[h + 1 + c] == LF;
    assert forall k :: 0 <= k < |e| ==> output[offset + k] == e[k];
    forall k | offset <= k < offset + h ensures output[k] != LF {
      assert output[offset + (k - offset)] == e[k - offset];
      assert e[k - offset] == Header(a)[k - offset];
    }
    assert output[offset..offset + h] == e[..h];
    assert output[offset + h + 1..offset + h + 1 + c] == e[h + 1..h + 1 + c];
  }

  lemma ParseStep(output: Bytes, paths: seq<Path>, offset: nat, files: map<Path, Bytes>, headerEnd: nat, size: nat)
    requires paths != [] && offset <= headerEnd && IndexOf(output, LF, offset) == headerEnd
    requires !EndsWith(output[offset..headerEnd], MISSING_SUFFIX)
        && DeclaredSize(output[offset..headerEnd]) == Some(size)
    requires headerEnd + 1 + size < |output| && output[headerEnd + 1 + size] == LF
    ensures ParseFrom(output, paths, offset, files)
         == ParseFrom(output, paths[1..], headerEnd + 1 + size + 1,
                      files[paths[0] := output[headerEnd + 1..headerEnd + 1 + size]])
  {
    hide EndsWith, DeclaredSize, Locate, IndexOf;
    LocateStep(output, paths[0], offset, headerEnd, size);
  }

  lemma LocateStep(output: Bytes, path: Path, offset: nat, headerEnd: nat, size: nat)
    requires offset <= headerEnd && IndexOf(output, LF, offset) == headerEnd
    requires !EndsWith(output[offset..headerEnd], MISSING_SUFFIX)
        && DeclaredSize(output[offset..headerEnd]) == Some(size)
    requires headerEnd + 1 + size < |output| && output[headerEnd + 1 + size] == LF
    ensures Locate(output, path, offset) == Content(headerEnd + 1, headerEnd + 1 + size)
  {
    hide EndsWith, DeclaredSize, IndexOf;
  }

  /** Each path with the content answered for it; of a path asked twice, the later answer. */
  function Answered(paths: seq<Path>, answers: seq<Answer>, files: map<Path, Bytes>): map<Path, Bytes>
    requires |paths| == |answers|
  {
    if paths == [] then files else Answered(paths[1..], answers[1..], files[paths[0] := answers[0].content])
  }

  lemma NothingAsked(output: Bytes, offset: nat, files: map<Path, Bytes>)
    ensures ParseFrom(output, [], offset, files) == Contents(files)
  {
  }

  lemma Regroup(before: Bytes, e: Bytes, rest: Bytes, after: Bytes)
    ensures var output := before + (e + rest) + after;
            && output == (before + e) + rest + after && |before + e| == |before| + |e| <= |output|
            && output[|before|..|before| + |e|] == e
  {
  }

  /** Past any answers the parser goes on with the next path, wherever they started and whatever follows. */
  lemma {:induction false} AnswersRead(before: Bytes, paths: seq<Path>, answers: seq<Answer>, more: seq<Path>,
                                       after: Bytes, files: map<Path, Bytes>)
    requires |paths| == |answers| && forall a :: a in answers ==> WellFormed(a)
    ensures ParseFrom(before + EncodeAll(answers) + after, paths + more, |before|, files)
        == ParseFrom(before + EncodeAll(answers) + after, more, |before + EncodeAll(answers)|,
                     Answered(paths, answers, files))
    decreases |paths|
  {
    hide Encode, WellFormed, ParseFrom;
    if paths == [] {
      assert paths + more == more && before + [] == before;
    } else {
      var e, rest := Encode(answers[0]), EncodeAll(answers[1..]);
      var output := before + (e + rest) + after;
      Regroup(before, e, rest, after);
      assert (paths + more)[1..] == paths[1..] + more;
      OneAnswer(output, |before|, answers[0], paths + more, files);
      AnswersRead(before + e, paths[1..], answers[1..], more, after, files[paths[0] := answers[0].content]);
    }
  }

  /** Parsing what was answered gives back every path's content, whatever bytes it holds and whatever follows. */
  lemma ParseInvertsEncode(before: Bytes, paths: seq<Path>, answers: seq<Answer>, after: Bytes,
                           files: map<Path, Bytes>)
    requires |paths| == |answers| && forall a :: a in answers ==> WellFormed(a)
    ensures ParseFrom(before + EncodeAll(answers) + after, paths, |before|, files)
        == Contents(Answered(paths, answers, files))
  {
    hide EncodeAll, WellFormed, ParseFrom, Answered;
    AnswersRead(before, paths, answers, [], after, files);
    assert paths + [] == paths;
    NothingAsked(before + EncodeAll(answers) + after, |before + EncodeAll(answers)|, Answered(paths, answers, files));
  }

  lemma NextFails(output: Bytes, path: Path, more: seq<Path>, offset: nat, files: map<Path, Bytes>)
    requires Locate(output, path, offset).Wrong?
    ensures ParseFrom(output, [path] + more, offset, files) == Locate(output, path, offset).error
  {
    hide Locate;
  }

  /** An object git does not have is reported by the path it was asked for, whichever answers came before. */
  lemma MissingIsReported(paths: seq<Path>, answers: seq<Answer>, path: Path, more: seq<Path>, name: Bytes,
                          after: Bytes)
    requires |paths| == |answers| && (forall a :: a in answers ==> WellFormed(a)) && LF !in name
    ensures ParseFrom(EncodeAll(answers) + (name + MISSING_SUFFIX + ([LF] + after)), paths + ([path] + more), 0, map[])
         == NoSuchPath(path)
  {
    hide EncodeAll, WellFormed, ParseFrom, Answered, Locate;
    var line, start := name + MISSING_SUFFIX, EncodeAll(answers);
    var output := start + (line + ([LF] + after));
    assert [] + start + (line + ([LF] + after)) == output && [] + start == start;
    AnswersRead([], paths, answers, [path] + more, line + ([LF] + after), map[]);
    MissingLine(start, name, after, path);
    NextFails(output, path, more, |start|, Answered(paths, answers, map[]));
  }

  lemma MissingLine(start: Bytes, name: Bytes, after: Bytes, path: Path)
    requires LF !in name
    ensures Locate(start + (name + MISSING_SUFFIX + ([LF] + after)), path, |start|) == Wrong(NoSuchPath(path))
  {
    var line := name + MISSING_SUFFIX;
    var output := start + (line + ([LF] + after));
    assert LF !in MISSING_SUFFIX;
    LineRead(start, line, [LF] + after);
    assert line[|line| - |MISSING_SUFFIX|..] == MISSING_SUFFIX;
  }

  lemma LineRead(start: Bytes, line: Bytes, after: Bytes)
    requires LF !in line && after != [] && after[0] == LF
    ensures var output := start + (line + after);
            IndexOf(output, LF, |start|) == |start| + |line| && output[|start|..|start| + |line|] == line
  {
    hide IndexOf;
    var output := start + (line + after);
    forall k | |start| <= k < |start| + |line| ensures output[k] != LF {
      assert output[k] == line[k - |start|];
    }
    assert output[|start| + |line|] == LF;
  }

  /** A stream that breaks off inside an answer is reported as one without a header, or as truncated. */
  lemma BrokenOff(paths: seq<Path>, answers: seq<Answer>, path: Path, more: seq<Path>, a: Answer, n: nat)
    requires |paths| == |answers| && (forall b :: b in answers ==> WellFormed(b)) && WellFormed(a) && n < |Encode(a)|
    ensures ParseFrom(EncodeAll(answers) + Encode(a)[..n], paths + ([path] + more), 0, map[])
         == if n <= |Header(a)| then NoHeader(path) else Truncated(path)
  {
    hide EncodeAll, Encode, WellFormed, ParseFrom, Answered, Locate, Header;
    var start := EncodeAll(answers);
    var output := start + Encode(a)[..n];
    assert [] + start + Encode(a)[..n] == output && [] + start == start;
    AnswersRead([], paths, answers, [path] + more, Encode(a)[..n], map[]);
    BrokenAnswer(start, a, n, path);
    NextFails(output, path, more, |start|, Answered(paths, answers, map[]));
  }

  lemma BrokenAnswer(start: Bytes, a: Answer, n: nat, path: Path)
    requires WellFormed(a) && n < |Encode(a)|
    ensures Locate(start + Encode(a)[..n], path, |start|)
         == Wrong(if n <= |Header(a)| then NoHeader(path) else Truncated(path))
  {
    hide Header, WellFormed, EndsWith, DeclaredSize, IndexOf;
    HeaderIsPlain(a);
    HeaderDeclares(a);
    var h := Header(a);
    if n <= |h| {
      assert Encode(a)[..n] == h[..n];
      NoLine(start, h[..n]);
    } else {
      var tail := ([LF] + (a.content + [LF]))[..n - |h|];
      assert Encode(a)[..n] == h + tail;
      LineRead(start, h, tail);
    }
  }

  lemma NoLine(start: Bytes, s: Bytes)
    requires LF !in s
    ensures IndexOf(start + s, LF, |start|) == -1
  {
    hide IndexOf;
    forall k | |start| <= k < |start + s| ensures (start + s)[k] != LF {
      assert (start + s)[k] == s[k - |start|];
    }
  }

  lemma {:induction false} AnsweredMeans(paths: seq<Path>, answers: seq<Answer>, files: map<Path, Bytes>)
    requires |paths| == |answers| && forall i, j :: 0 <= i < j < |paths| ==> paths[i] != paths[j]
    ensures var r := Answered(paths, answers, files);
            && (forall i :: 0 <= i < |paths| ==> paths[i] in r && r[paths[i]] == answers[i].content)
            && (forall p :: p in r ==> p in paths || p in files)
            && (forall p :: p in files && p !in paths ==> p in r && r[p] == files[p])
  {
    if paths != [] {
      AnsweredMeans(paths[1..], answers[1..], files[paths[0] := answers[0].content]);
      var r := Answered(paths, answers, files);
      assert paths == [paths[0]] + paths[1..];
      assert paths[0] !in paths[1..];
      forall i | 0 <= i < |paths| ensures paths[i] in r && r[paths[i]] == answers[i].content {
        if i > 0 {
          assert paths[1..][i - 1] == paths[i] && answers[1..][i - 1] == answers[i];
        }
      }
    }
  }

  /** For distinct paths the parsed map holds exactly the paths asked for, each with its own content. */
  lemma BatchRoundTrip(paths: seq<Path>, answers: seq<Answer>, after: Bytes)
    requires |paths| == |answers| && (forall a :: a in answers ==> WellFormed(a))
    requires forall i, j :: 0 <= i < j < |paths| ==> paths[i] != paths[j]
    ensures var r := ParseFrom(EncodeAll(answers) + after, paths, 0, map[]);
            && r.Contents? && (forall p :: p in r.files <==> p in paths)
            && forall i :: 0 <= i < |paths| ==> r.files[paths[i]] == answers[i].content
  {
    hide ParseFrom, EncodeAll, WellFormed, Answered;
    ParseInvertsEncode([], paths, answers, after, map[]);
    assert [] + EncodeAll(answers) + after == EncodeAll(answers) + after;
    AnsweredMeans(paths, answers, map[]);
  }
}
