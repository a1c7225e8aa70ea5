/** The prose of a JSDoc block: its paragraphs and lists, and the words they keep. */
module JsDocProse {

  import opened Text
  import opened Options

  datatype Mode = Emit | Waterfall | Parallel | Serial | Bail

  datatype JsDoc = JsDoc(prose: string, mode: Option<Mode>, hasMode: bool)

  // ----- words and whitespace -----

  /** The words of `s`, the first of which may continue `word`. */
  function WordsFrom(word: string, s: string): seq<string>
    decreases |s|
  {
    if s == "" then (if word == "" then [] else [word])
    else if IsSpace(s[0]) then (if word == "" then [] else [word]) + WordsFrom("", s[1..])
    else WordsFrom(word + [s[0]], s[1..])
  }

  function Words(s: string): seq<string> {
    WordsFrom("", s)
  }

  function WordsOf(lines: seq<string>): seq<string> {
    if lines == [] then [] else Words(lines[0]) + WordsOf(lines[1..])
  }

  function TrimStart(s: string): string {
    if s != "" && IsSpace(s[0]) then TrimStart(s[1..]) else s
  }

  function TrimEnd(s: string): string {
    if s != "" && IsSpace(s[|s| - 1]) then TrimEnd(s[..|s| - 1]) else s
  }

  function Trim(s: string): string {
    TrimEnd(TrimStart(s))
  }

  /** Every run of whitespace made one space; `after` says whether one was just written. */
  function OneSpace(s: string, after: bool): string {
    if s == "" then ""
    else if IsSpace(s[0]) then (if after then "" else " ") + OneSpace(s[1..], true)
    else [s[0]] + OneSpace(s[1..], false)
  }

  function JoinBy(parts: seq<string>, sep: string): string {
    if parts == [] then "" else if |parts| == 1 then parts[0] else parts[0] + sep + JoinBy(parts[1..], sep)
  }

  /** Several lines as one, single-spaced. */
  function Collapse(lines: seq<string>): string {
    Trim(OneSpace(JoinBy(lines, " "), false))
  }

  lemma {:induction false} WordsBreak(word: string, a: string, c: char, b: string)
    requires IsSpace(c)
    ensures WordsFrom(word, a + [c] + b) == WordsFrom(word, a) + Words(b)
    decreases |a|
  {
    hide IsSpace;
    var s := a + [c] + b;
    if a == "" {
      assert s[1..] == b;
    } else {
      assert s[1..] == a[1..] + [c] + b;
      if IsSpace(a[0]) {
        WordsBreak("", a[1..], c, b);
      } else {
        WordsBreak(word + [a[0]], a[1..], c, b);
      }
    }
  }

  lemma SpaceHasNoWords(c: char, s: string)
    requires IsSpace(c)
    ensures Words([c] + s) == Words(s) && Words(s + [c]) == Words(s)
  {
    WordsBreak("", "", c, s);
    WordsBreak("", s, c, "");
    assert "" + [c] + s == [c] + s && s + [c] + "" == s + [c];
  }

  lemma {:induction false} TrimStartKeepsWords(s: string)
    ensures Words(TrimStart(s)) == Words(s)
  {
    hide IsSpace, Words;
    if s != "" && IsSpace(s[0]) {
      TrimStartKeepsWords(s[1..]);
      SpaceHasNoWords(s[0], s[1..]);
      assert [s[0]] + s[1..] == s;
    }
  }

  lemma {:induction false} TrimEndKeepsWords(s: string)
    ensures Words(TrimEnd(s)) == Words(s)
    decreases |s|
  {
    hide IsSpace, Words;
    var n := |s| - 1;
    if s != "" && IsSpace(s[n]) {
      TrimEndKeepsWords(s[..n]);
      SpaceHasNoWords(s[n], s[..n]);
      assert s[..n] + [s[n]] == s;
    }
  }

  lemma {:induction false} OneSpaceKeepsWords(word: string, s: string, after: bool)
    requires after ==> word == ""
    ensures WordsFrom(word, OneSpace(s, after)) == WordsFrom(word, s)
    decreases |s|
  {
    if s == "" {
    } else if IsSpace(s[0]) {
      OneSpaceKeepsWords("", s[1..], true);
      if !after {
        assert (" " + OneSpace(s[1..], true))[1..] == OneSpace(s[1..], true);
      } else {
        assert "" + OneSpace(s[1..], true) == OneSpace(s[1..], true);
        assert OneSpace(s, after) == OneSpace(s[1..], true);
      }
    } else {
      OneSpaceKeepsWords(word + [s[0]], s[1..], false);
      assert ([s[0]] + OneSpace(s[1..], false))[1..] == OneSpace(s[1..], false);
    }
  }

  lemma {:induction false} JoinKeepsWords(parts: seq<string>, sep: string)
    requires sep == " " || sep == "\n" || sep == "\n\n"
    ensures Words(JoinBy(parts, sep)) == WordsOf(parts)
  {
    hide Words;
    if parts == [] {
      assert Words("") == [] by { NoWords(); }
    } else if |parts| == 1 {
      assert WordsOf(parts[1..]) == [];
    } else {
      JoinKeepsWords(parts[1..], sep);
      SeparatedWords(parts[0], sep, JoinBy(parts[1..], sep));
    }
  }

  lemma NoWords()
    ensures Words("") == []
  {
  }

  lemma SeparatedWords(a: string, sep: string, b: string)
    requires sep == " " || sep == "\n" || sep == "\n\n"
    ensures Words(a + sep + b) == Words(a) + Words(b)
  {
    if sep == "\n\n" {
      WordsBreak("", a, '\n', "\n" + b);
      SpaceHasNoWords('\n', b);
      assert a + sep + b == a + ['\n'] + ("\n" + b);
    } else {
      WordsBreak("", a, sep[0], b);
    }
  }

  lemma CollapseKeepsWords(lines: seq<string>)
    ensures Words(Collapse(lines)) == WordsOf(lines)
  {
    hide TrimStart, TrimEnd, OneSpace, JoinBy, WordsFrom, WordsOf;
    var s := JoinBy(lines, " ");
    TrimEndKeepsWords(TrimStart(OneSpace(s, false)));
    TrimStartKeepsWords(OneSpace(s, false));
    OneSpaceKeepsWords("", s, false);
    JoinKeepsWords(lines, " ");
  }

  lemma {:induction false} TrimEndAfter(a: string, b: string)
    requires b != "" && !IsSpace(b[0])
    ensures TrimEnd(a + b) == a + TrimEnd(b) && TrimEnd(b) != ""
    decreases |b|
  {
    hide IsSpace;
    var n := |b| - 1;
    if IsSpace(b[n]) {
      assert (a + b)[..|a + b| - 1] == a + b[..n];
      TrimEndAfter(a, b[..n]);
    }
  }

  lemma {:induction false} OneSpaceSkips(s: string)
    ensures OneSpace(s, true) == OneSpace(TrimStart(s), false)
    ensures TrimStart(OneSpace(s, false)) == OneSpace(TrimStart(s), false)
  {
    hide IsSpace;
    if s != "" && IsSpace(s[0]) {
      OneSpaceSkips(s[1..]);
      assert IsSpace(' ') by { BlankIsSpace(); }
      var rest := OneSpace(s[1..], true);
      assert (" " + rest)[1..] == rest;
      SpacedStart(s[1..]);
    }
  }

  lemma BlankIsSpace()
    ensures IsSpace(' ')
  {
  }

  /** What stands single-spaced behind whitespace starts with none. */
  lemma {:induction false} SpacedStart(s: string)
    ensures TrimStart(OneSpace(s, true)) == OneSpace(s, true)
  {
    hide IsSpace;
    if s != "" && IsSpace(s[0]) {
      SpacedStart(s[1..]);
      assert "" + OneSpace(s[1..], true) == OneSpace(s[1..], true);
    }
  }

  lemma {:induction false} TrimmedStart(s: string)
    ensures TrimStart(s) == "" || !IsSpace(TrimStart(s)[0])
    ensures |TrimStart(s)| <= |s|
  {
    hide IsSpace;
    if s != "" && IsSpace(s[0]) {
      TrimmedStart(s[1..]);
    }
  }

  /** Behind a word begun, single-spaced text is the words joined by spaces. */
  lemma {:induction false} SpacedIsJoined(word: string, s: string)
    requires word != "" && forall c :: c in word ==> !IsSpace(c)
    ensures TrimEnd(word + OneSpace(s, false)) == JoinBy(WordsFrom(word, s), " ")
    decreases |s|
  {
    hide IsSpace;
    if s == "" {
      assert word + "" == word && !IsSpace(word[|word| - 1]);
    } else if !IsSpace(s[0]) {
      SpacedIsJoined(word + [s[0]], s[1..]);
      assert word + ([s[0]] + OneSpace(s[1..], false)) == (word + [s[0]]) + OneSpace(s[1..], false);
    } else {
      SpacedTail(word, s[1..]);
    }
  }

  lemma {:induction false} SpacedTail(word: string, s: string)
    requires word != "" && forall c :: c in word ==> !IsSpace(c)
    ensures TrimEnd(word + (" " + OneSpace(s, true))) == JoinBy([word] + Words(s), " ")
    decreases |s|
  {
    hide IsSpace;
    var t := TrimStart(s);
    OneSpaceSkips(s);
    TrimmedStart(s);
    TrimStartKeepsWords(s);
    if t == "" {
      BlankIsSpace();
      assert (word + (" " + ""))[..|word|] == word && !IsSpace(word[|word| - 1]);
      assert [word] + [] == [word];
    } else {
      SpacedIsJoined([t[0]], t[1..]);
      assert "" + [t[0]] == [t[0]];
      var text := [t[0]] + OneSpace(t[1..], false);
      assert word + (" " + text) == (word + " ") + text;
      TrimEndAfter(word + " ", text);
      WordsGoOn([t[0]], t[1..]);
      assert ([word] + Words(t))[1..] == Words(t);
    }
  }

  lemma {:induction false} WordsGoOn(word: string, s: string)
    requires word != ""
    ensures WordsFrom(word, s) != []
    decreases |s|
  {
    hide IsSpace;
    if s != "" && !IsSpace(s[0]) {
      WordsGoOn(word + [s[0]], s[1..]);
    }
  }

  /** Lines collapse to their words, one space apart. */
  lemma CollapseExactly(lines: seq<string>)
    ensures Collapse(lines) == JoinBy(WordsOf(lines), " ")
  {
    hide IsSpace, JoinBy, WordsOf;
    var s := JoinBy(lines, " ");
    JoinKeepsWords(lines, " ");
    OneSpaceSkips(s);
    TrimmedStart(s);
    TrimStartKeepsWords(s);
    var t := TrimStart(s);
    if t == "" {
      assert JoinBy([], " ") == "" by { JoinNothing(); }
    } else {
      SpacedIsJoined([t[0]], t[1..]);
      assert "" + [t[0]] == [t[0]];
    }
  }

  lemma JoinNothing()
    ensures JoinBy([], " ") == ""
  {
  }

  lemma WordsOfFirst(line: string, rest: seq<string>)
    ensures WordsOf([line] + rest) == Words(line) + WordsOf(rest)
  {
    hide Words;
    assert ([line] + rest)[1..] == rest;
  }

  lemma {:induction false} WordsOfJoin(a: seq<string>, b: seq<string>)
    ensures WordsOf(a + b) == WordsOf(a) + WordsOf(b)
  {
    hide Words, WordsOf;
    if a == [] {
      assert a + b == b;
      assert WordsOf(a) == [] by { NoLines(); }
    } else {
      WordsOfJoin(a[1..], b);
      WordsOfFirst(a[0], a[1..]);
      WordsOfFirst(a[0], a[1..] + b);
      assert a == [a[0]] + a[1..] && a + b == [a[0]] + (a[1..] + b);
      assert Words(a[0]) + (WordsOf(a[1..]) + WordsOf(b)) == (Words(a[0]) + WordsOf(a[1..])) + WordsOf(b);
    }
  }

  lemma NoLines()
    ensures WordsOf([]) == []
  {
  }

  // ----- lines -----

  predicate IsTag(line: string) {
    var t := TrimStart(line);
    t != "" && t[0] == '@'
  }

  predicate IsBlank(line: string) {
    Trim(line) == ""
  }

  predicate IsItem(line: string) {
    |line| >= 2 && line[0] == '-' && IsSpace(line[1])
  }

  predicate IsWordChar(c: char) {
    'a' <= c <= 'z' || 'A' <= c <= 'Z' || '0' <= c <= '9' || c == '_'
  }

  /** A line that names the mode tag, with a valid mode or not. */
  predicate IsModeTag(line: string) {
    var t := TrimStart(line);
    "@mode" <= t && (|t| == 5 || !IsWordChar(t[5]))
  }

  function ModeOf(line: string): Option<Mode> {
    var t := TrimStart(line);
    if !("@mode" <= t) || |t| == 5 || !IsSpace(t[5]) then None
    else
      match Trim(t[5..])
      case "emit" => Some(Emit)
      case "waterfall" => Some(Waterfall)
      case "parallel" => Some(Parallel)
      case "serial" => Some(Serial)
      case "bail" => Some(Bail)
      case _ => None
  }

  ghost predicate AllSpace(s: string) {
    forall c :: c in s ==> IsSpace(c)
  }

  /** How a comment writes a mode. */
  function Written(mode: Mode): string {
    match mode
    case Emit => "emit"
    case Waterfall => "waterfall"
    case Parallel => "parallel"
    case Serial => "serial"
    case Bail => "bail"
  }

  lemma {:induction false} TrimStartSplits(s: string) returns (before: string)
    ensures AllSpace(before) && s == before + TrimStart(s)
    ensures TrimStart(s) == "" || !IsSpace(TrimStart(s)[0])
  {
    hide IsSpace;
    before := "";
    if s != "" && IsSpace(s[0]) {
      var more := TrimStartSplits(s[1..]);
      before := [s[0]] + more;
      assert s == [s[0]] + s[1..];
    }
  }

  lemma {:induction false} TrimEndSplits(s: string) returns (behind: string)
    ensures AllSpace(behind) && s == TrimEnd(s) + behind
    ensures TrimEnd(s) == "" || !IsSpace(TrimEnd(s)[|TrimEnd(s)| - 1])
    decreases |s|
  {
    hide IsSpace;
    behind := "";
    if s != "" && IsSpace(s[|s| - 1]) {
      var more := TrimEndSplits(s[..|s| - 1]);
      behind := more + [s[|s| - 1]];
      assert s == s[..|s| - 1] + [s[|s| - 1]];
    }
  }

  lemma {:induction false} TrimsStart(before: string, s: string)
    requires AllSpace(before) && (s == "" || !IsSpace(s[0]))
    ensures TrimStart(before + s) == s
  {
    hide IsSpace;
    if before == "" {
      assert before + s == s;
    } else {
      assert (before + s)[1..] == before[1..] + s;
      TrimsStart(before[1..], s);
    }
  }

  lemma {:induction false} TrimsEnd(s: string, behind: string)
    requires AllSpace(behind) && (s == "" || !IsSpace(s[|s| - 1]))
    ensures TrimEnd(s + behind) == s
    decreases |behind|
  {
    hide IsSpace;
    if behind == "" {
      assert s + behind == s;
    } else {
      var n := |behind| - 1;
      assert (s + behind)[..|s| + n] == s + behind[..n];
      TrimsEnd(s, behind[..n]);
    }
  }

  /** A blank line is all whitespace, and an item opens with a dash and whitespace. */
  lemma BlankAndItem(line: string)
    ensures IsBlank(line) <==> AllSpace(line)
    ensures IsItem(line) <==> exists c, rest :: IsSpace(c) && line == "-" + ([c] + rest)
  {
    hide IsSpace, TrimStart, TrimEnd;
    var before := TrimStartSplits(line);
    var behind := TrimEndSplits(TrimStart(line));
    if AllSpace(line) {
      assert line + "" == line;
      TrimsStart(line, "");
      TrimsEnd("", "");
      assert "" + "" == "";
    }
    if IsItem(line) {
      assert line == "-" + ([line[1]] + line[2..]);
    }
  }

  /** A tag is an `@` behind whitespace, and a mode tag one that reads `@mode` up to the end of a word. */
  lemma TagsExactly(line: string)
    ensures IsTag(line) <==> exists before, rest :: AllSpace(before) && line == before + ("@" + rest)
    ensures IsModeTag(line) <==> exists before, rest :: AllSpace(before) && line == before + ("@mode" + rest)
                                                        && (rest == "" || !IsWordChar(rest[0]))
  {
    hide IsSpace, TrimStart, IsWordChar, AllSpace;
    AtIsInk();
    var before := TrimStartSplits(line);
    var t := TrimStart(line);
    if IsTag(line) {
      assert t == "@" + t[1..];
    }
    if IsModeTag(line) {
      assert t == "@mode" + t[5..];
    }
    if b, rest :| AllSpace(b) && line == b + ("@" + rest) {
      TrimsStart(b, "@" + rest);
    }
    if b, rest :| AllSpace(b) && line == b + ("@mode" + rest) && (rest == "" || !IsWordChar(rest[0])) {
      TrimsStart(b, "@mode" + rest);
      assert ("@mode" + rest)[..5] == "@mode";
    }
  }

  /** A mode tag with nothing but whitespace around the tag and its one word. */
  ghost predicate WritesMode(line: string, mode: Mode) {
    exists before, gap, behind :: AllSpace(before) && AllSpace(gap) && gap != "" && AllSpace(behind)
                                  && line == before + ("@mode" + (gap + (Written(mode) + behind)))
  }

  /** A line gives a mode exactly when it writes that mode. */
  lemma ModeOfExactly(line: string, mode: Mode)
    ensures ModeOf(line) == Some(mode) <==> WritesMode(line, mode)
  {
    hide IsSpace, AllSpace;
    if ModeOf(line) == Some(mode) {
      ModeIsWritten(line, mode);
    }
    if before, gap, behind :| AllSpace(before) && AllSpace(gap) && gap != "" && AllSpace(behind)
                              && line == before + ("@mode" + (gap + (Written(mode) + behind))) {
      ModeIsRead(line, mode, before, gap, behind);
    }
  }

  lemma ModeIsWritten(line: string, mode: Mode)
    requires ModeOf(line) == Some(mode)
    ensures WritesMode(line, mode)
  {
    hide IsSpace, TrimStart, TrimEnd, AllSpace;
    var t := TrimStart(line);
    var before := TrimStartSplits(line);
    assert t == "@mode" + t[5..];
    var word := t[5..];
    var gap := TrimStartSplits(word);
    var behind := TrimEndSplits(TrimStart(word));
    GapIsThere(word, gap);
    assert line == before + ("@mode" + (gap + (Written(mode) + behind)));
  }

  lemma GapIsThere(word: string, gap: string)
    requires word != "" && IsSpace(word[0]) && word == gap + TrimStart(word)
    ensures gap != ""
  {
    hide IsSpace;
    TrimmedStart(word[1..]);
    assert |TrimStart(word)| < |word|;
  }

  lemma WordEnds(mode: Mode)
    ensures var w := Written(mode); w != "" && !IsSpace(w[0]) && !IsSpace(w[|w| - 1])
  {
  }

  lemma ModeIsRead(line: string, mode: Mode, before: string, gap: string, behind: string)
    requires AllSpace(before) && AllSpace(gap) && gap != "" && AllSpace(behind)
    requires line == before + ("@mode" + (gap + (Written(mode) + behind)))
    ensures ModeOf(line) == Some(mode)
  {
    hide IsSpace, TrimStart, TrimEnd, Written;
    var tail := gap + (Written(mode) + behind);
    WordEnds(mode);
    AtIsInk();
    TrimsStart(before, "@mode" + tail);
    var t := "@mode" + tail;
    assert t[5..] == tail && t[5] == gap[0] && gap[0] in gap;
    TrimsStart(gap, Written(mode) + behind);
    TrimsEnd(Written(mode), behind);
    assert Trim(tail) == Written(mode);
    WordIsMode(mode);
  }

  lemma AtIsInk()
    ensures !IsSpace('@')
  {
  }

  lemma WordIsMode(mode: Mode)
    ensures match Written(mode)
            case "emit" => mode == Emit
            case "waterfall" => mode == Waterfall
            case "parallel" => mode == Parallel
            case "serial" => mode == Serial
            case "bail" => mode == Bail
            case _ => false
  {
  }

  /** The lines before the first block tag. */
  function Prose(lines: seq<string>): seq<string> {
    if lines == [] || IsTag(lines[0]) then [] else [lines[0]] + Prose(lines[1..])
  }

  /** The last valid mode, and whether any mode tag stands at all, in whatever place. */
  ghost predicate IsModeOf(lines: seq<string>, mode: Option<Mode>, hasMode: bool) {
    && (hasMode <==> exists l :: l in lines && IsModeTag(l))
    && (mode == None <==> forall l :: l in lines ==> ModeOf(l) == None)
    && (mode.Some? ==>
          exists i :: 0 <= i < |lines| && ModeOf(lines[i]) == mode
                      && forall j :: i < j < |lines| ==> ModeOf(lines[j]) == None)
  }

  // ----- the blocks of a prose -----

  function ListRun(lines: seq<string>): (n: nat)
    ensures n <= |lines|
  {
    if lines == [] || IsBlank(lines[0]) then 0 else 1 + ListRun(lines[1..])
  }

  function TextRun(lines: seq<string>): (n: nat)
    ensures n <= |lines|
  {
    if lines == [] || IsBlank(lines[0]) || IsItem(lines[0]) then 0 else 1 + TextRun(lines[1..])
  }

  function ItemRun(lines: seq<string>): (n: nat)
    ensures n <= |lines|
  {
    if lines == [] || IsItem(lines[0]) then 0 else 1 + ItemRun(lines[1..])
  }

  /** The items of a list: each opens with a dash and takes the lines up to the next. */
  function Items(lines: seq<string>): seq<string> {
    if lines == [] then []
    else
      var n := 1 + ItemRun(lines[1..]);
      [Collapse(lines[..n])] + Items(lines[n..])
  }

  /** Blank lines separate blocks; a dash opens a list, which runs to the next blank line. */
  function Blocks(lines: seq<string>): seq<string> {
    if lines == [] then []
    else if IsBlank(lines[0]) then Blocks(lines[1..])
    else if IsItem(lines[0]) then
      var n := 1 + ListRun(lines[1..]);
      [JoinBy(Items(lines[..n]), "\n")] + Blocks(lines[n..])
    else
      var n := 1 + TextRun(lines[1..]);
      [Collapse(lines[..n])] + Blocks(lines[n..])
  }

  lemma {:induction false} ItemsKeepWords(lines: seq<string>)
    ensures WordsOf(Items(lines)) == WordsOf(lines)
    decreases |lines|
  {
    hide Collapse, ItemRun, Words;
    if lines != [] {
      var n := 1 + ItemRun(lines[1..]);
      var first, rest := lines[..n], lines[n..];
      ItemsKeepWords(rest);
      CollapseKeepsWords(first);
      WordsOfJoin(first, rest);
      assert lines == first + rest;
      assert Items(lines)[1..] == Items(rest);
    }
  }

  lemma BlankHasNoWords(line: string)
    requires IsBlank(line)
    ensures Words(line) == []
  {
    hide TrimStart, TrimEnd;
    TrimEndKeepsWords(TrimStart(line));
    TrimStartKeepsWords(line);
  }

  /** Every word of the prose stands in its blocks, in order, and no other. */
  lemma {:induction false} BlocksKeepWords(lines: seq<string>)
    ensures WordsOf(Blocks(lines)) == WordsOf(lines)
    decreases |lines|, 1
  {
    hide Collapse, ListRun, TextRun, Words, Items, IsBlank, IsItem;
    if lines == [] {
    } else if IsBlank(lines[0]) {
      BlankHasNoWords(lines[0]);
      BlocksKeepWords(lines[1..]);
    } else if IsItem(lines[0]) {
      var n := 1 + ListRun(lines[1..]);
      ItemsKeepWords(lines[..n]);
      JoinKeepsWords(Items(lines[..n]), "\n");
      BlockAndRest(lines, n, JoinBy(Items(lines[..n]), "\n"));
    } else {
      var n := 1 + TextRun(lines[1..]);
      CollapseKeepsWords(lines[..n]);
      BlockAndRest(lines, n, Collapse(lines[..n]));
    }
  }

  lemma {:induction false} BlockAndRest(lines: seq<string>, n: nat, block: string)
    requires 0 < n <= |lines| && Words(block) == WordsOf(lines[..n])
    ensures WordsOf([block] + Blocks(lines[n..])) == WordsOf(lines)
    decreases |lines|, 0
  {
    hide Words, Blocks, JoinBy, Items;
    BlocksKeepWords(lines[n..]);
    WordsOfJoin(lines[..n], lines[n..]);
    assert lines == lines[..n] + lines[n..];
    assert ([block] + Blocks(lines[n..]))[1..] == Blocks(lines[n..]);
  }

  // ----- the line loop -----

  /** No item waits without its list, no paragraph waits beside an item, and an item is one dash line and its tail. */
  ghost predicate Steady(list: seq<string>, item: seq<string>, para: seq<string>) {
    && (list != [] ==> item != [])
    && (para != [] ==> item == [])
    && (item != [] ==> IsItem(item[0]) && forall l :: l in item[1..] ==> !IsItem(l))
  }

  /** The blocks still to come when these lines are buffered and `rest` follows. */
  ghost function Pending(list: seq<string>, item: seq<string>, para: seq<string>, rest: seq<string>): seq<string> {
    if item != [] then
      var n := ListRun(rest);
      [JoinBy(list + Items(item + rest[..n]), "\n")] + Blocks(rest[n..])
    else if para != [] then
      var n := TextRun(rest);
      [Collapse(para + rest[..n])] + Blocks(rest[n..])
    else Blocks(rest)
  }

  /** The block a flush writes. */
  function Flushed(list: seq<string>, item: seq<string>, para: seq<string>): seq<string> {
    if item != [] then [JoinBy(list + [Collapse(item)], "\n")] else if para != [] then [Collapse(para)] else []
  }

  lemma {:induction false} RunOfTail(tail: seq<string>, rest: seq<string>)
    requires forall l :: l in tail ==> !IsItem(l)
    requires rest == [] || IsItem(rest[0])
    ensures ItemRun(tail + rest) == |tail|
    decreases |tail|
  {
    hide IsItem;
    if tail == [] {
      assert tail + rest == rest;
    } else {
      assert (tail + rest)[1..] == tail[1..] + rest;
      RunOfTail(tail[1..], rest);
    }
  }

  /** An item and what follows it, when that starts a new item. */
  lemma ItemsSplit(item: seq<string>, rest: seq<string>)
    requires item != [] && (forall l :: l in item[1..] ==> !IsItem(l))
    requires rest == [] || IsItem(rest[0])
    ensures Items(item + rest) == [Collapse(item)] + Items(rest)
  {
    hide IsItem, Collapse;
    RunOfTail(item[1..], rest);
    assert (item + rest)[1..] == item[1..] + rest;
    assert (item + rest)[..|item|] == item && (item + rest)[|item|..] == rest;
  }

  /** At a blank line or the end, what is buffered makes one block. */
  lemma FlushPending(list: seq<string>, item: seq<string>, para: seq<string>, rest: seq<string>)
    requires Steady(list, item, para) && (rest == [] || IsBlank(rest[0]))
    ensures Pending(list, item, para, rest) == Flushed(list, item, para) + Blocks(rest)
  {
    hide IsItem, IsBlank, Collapse, JoinBy, Items, Blocks;
    assert rest[..0] == [] && rest[0..] == rest;
    assert item + [] == item && para + [] == para;
    if item != [] {
      ItemsSplit(item, []);
      assert Items([]) == [] by { NoItems(); }
      assert [Collapse(item)] + [] == [Collapse(item)];
    }
  }

  lemma NoItems()
    ensures Items([]) == []
  {
  }

  lemma BlankPending(list: seq<string>, item: seq<string>, para: seq<string>, line: string, rest: seq<string>)
    requires Steady(list, item, para) && IsBlank(line)
    ensures Pending(list, item, para, [line] + rest) == Flushed(list, item, para) + Pending([], [], [], rest)
  {
    hide IsItem, IsBlank, Steady, Flushed;
    FlushPending(list, item, para, [line] + rest);
    assert ([line] + rest)[1..] == rest;
  }

  lemma RunsGrow(line: string, rest: seq<string>)
    requires !IsBlank(line)
    ensures ListRun([line] + rest) == 1 + ListRun(rest)
    ensures !IsItem(line) ==> TextRun([line] + rest) == 1 + TextRun(rest)
    ensures IsItem(line) ==> TextRun([line] + rest) == 0
    ensures forall n: nat :: n <= |rest| ==>
              ([line] + rest)[..1 + n] == [line] + rest[..n] && ([line] + rest)[1 + n..] == rest[n..]
  {
    hide IsBlank, IsItem;
    assert ([line] + rest)[1..] == rest;
  }

  /** A dash line closes the item or the paragraph that waits, and opens an item. */
  lemma DashPending(list: seq<string>, item: seq<string>, para: seq<string>, line: string, rest: seq<string>)
    requires Steady(list, item, para) && IsItem(line) && !IsBlank(line)
    ensures item != [] ==>
              Pending(list, item, para, [line] + rest) == Pending(list + [Collapse(item)], [line], para, rest)
    ensures item == [] ==>
              Pending(list, item, para, [line] + rest) == Flushed([], [], para) + Pending([], [line], [], rest)
  {
    hide IsItem, IsBlank, Collapse, JoinBy, Items;
    RunsGrow(line, rest);
    var n := ListRun(rest);
    assert [line] + rest[..n] != [];
    if item != [] {
      ItemsSplit(item, [line] + rest[..n]);
      assert list + ([Collapse(item)] + Items([line] + rest[..n]))
          == (list + [Collapse(item)]) + Items([line] + rest[..n]);
    } else {
      DashOpens(line, rest);
      if para != [] {
        assert para + ([line] + rest)[..0] == para && ([line] + rest)[0..] == [line] + rest;
      }
    }
  }

  lemma DashOpens(line: string, rest: seq<string>)
    requires IsItem(line) && !IsBlank(line)
    ensures Blocks([line] + rest) == Pending([], [line], [], rest)
  {
    hide IsItem, IsBlank, Collapse, JoinBy, Items;
    RunsGrow(line, rest);
    assert ([line] + rest)[1..] == rest;
    var items := Items([line] + rest[..ListRun(rest)]);
    assert [] + items == items;
  }

  /** A text line joins the item that waits, or else the paragraph. */
  lemma TextPending(list: seq<string>, item: seq<string>, para: seq<string>, line: string, rest: seq<string>)
    requires Steady(list, item, para) && !IsItem(line) && !IsBlank(line)
    ensures item != [] ==> Pending(list, item, para, [line] + rest) == Pending(list, item + [line], para, rest)
    ensures item == [] ==> Pending(list, item, para, [line] + rest) == Pending(list, item, para + [line], rest)
  {
    hide IsItem, IsBlank, Collapse, JoinBy, Items, Steady;
    RunsGrow(line, rest);
    var n, k := ListRun(rest), TextRun(rest);
    assert item + ([line] + rest[..n]) == (item + [line]) + rest[..n];
    assert para + ([line] + rest[..k]) == (para + [line]) + rest[..k];
    if item == [] && para == [] {
      assert ([line] + rest)[1..] == rest;
      assert [] + [line] == [line];
    }
  }

  /** The buffers of the line loop. */
  class Buffers {
    var blocks: seq<string>
    var para: seq<string>
    var list: seq<string>
    var item: seq<string>

    constructor ()
      ensures blocks == [] && para == [] && list == [] && item == []
    {
      blocks, para, list, item := [], [], [], [];
    }

    method FlushItem()
      modifies `list, `item
      ensures item == [] && list == old(list) + (if old(item) == [] then [] else [Collapse(old(item))])
    {
      if item != [] {
        list := list + [Collapse(item)];
      }
      item := [];
    }

    method FlushList()
      modifies `blocks, `list, `item
      ensures list == [] && item == []
      ensures var all := old(list) + (if old(item) == [] then [] else [Collapse(old(item))]);
              blocks == old(blocks) + (if all == [] then [] else [JoinBy(all, "\n")])
    {
      FlushItem();
      if list != [] {
        blocks := blocks + [JoinBy(list, "\n")];
      }
      list := [];
    }

    method FlushPara()
      requires Steady(list, item, para)
      modifies this
      ensures list == [] && item == [] && para == []
      ensures blocks == old(blocks) + Flushed(old(list), old(item), old(para))
    {
      FlushList();
      if para != [] {
        blocks := blocks + [Collapse(para)];
      }
      para := [];
    }

    /** A line of prose: what is written and what is still pending stay the same blocks. */
    method Take(line: string)
      requires Steady(list, item, para)
      modifies this
      ensures Steady(list, item, para)
      ensures forall rest ::
                blocks + Pending(list, item, para, rest) == old(blocks + Pending(list, item, para, [line] + rest))
    {
      hide Pending, IsBlank, IsItem, Collapse, JoinBy;
      ghost var before := blocks;
      ghost var l, i, p := list, item, para;
      if IsBlank(line) {
        FlushPara();
        forall rest ensures blocks + Pending(list, item, para, rest) == before + Pending(l, i, p, [line] + rest) {
          BlankPending(l, i, p, line, rest);
        }
      } else if IsItem(line) {
        FlushItem();
        if para != [] {
          blocks := blocks + [Collapse(para)];
          para := [];
        }
        item := item + [line];
        assert item == [line] && para == [];
        forall rest ensures blocks + Pending(list, item, para, rest) == before + Pending(l, i, p, [line] + rest) {
          DashPending(l, i, p, line, rest);
          if i == [] {
            assert list == [] && blocks == before + Flushed([], [], p);
          }
        }
      } else if item != [] {
        item := item + [line];
        forall rest ensures blocks + Pending(list, item, para, rest) == before + Pending(l, i, p, [line] + rest) {
          TextPending(l, i, p, line, rest);
        }
      } else {
        para := para + [line];
        forall rest ensures blocks + Pending(list, item, para, rest) == before + Pending(l, i, p, [line] + rest) {
          TextPending(l, i, p, line, rest);
        }
      }
    }
  }

  // ----- the parser -----

  function StripOpen(raw: string): string {
    if "/**" <= raw then raw[3..] else raw
  }

  function StripClose(raw: string): string {
    if |raw| >= 2 && raw[|raw| - 2..] == "*/" then raw[..|raw| - 2] else raw
  }

  function StripLine(line: string): string {
    var t := TrimStart(line);
    var u := if t != "" && t[0] == '*' then t[1..] else t;
    TrimEnd(if u != "" && IsSpace(u[0]) then u[1..] else u)
  }

  /** Off a line come its indentation, one star, one whitespace character behind it, and whitespace at its end. */
  lemma StarComesOff(indent: string, text: string, behind: string, c: char)
    requires AllSpace(indent) && AllSpace(behind) && IsSpace(c) && (text == "" || !IsSpace(text[|text| - 1]))
    ensures StripLine(indent + ("*" + ([c] + (text + behind)))) == text
    ensures text == "" || (!IsSpace(text[0]) && text[0] != '*') ==>
              StripLine(indent + (text + behind)) == text && StripLine(indent + ("*" + (text + behind))) == text
  {
    hide IsSpace, TrimEnd, TrimStart, AllSpace;
    StarIsInk();
    TrimsEnd(text, behind);
    TrimsStart(indent, "*" + ([c] + (text + behind)));
    assert ("*" + ([c] + (text + behind)))[1..] == [c] + (text + behind);
    assert ([c] + (text + behind))[1..] == text + behind;
    if text != "" && !IsSpace(text[0]) && text[0] != '*' {
      PlainComesOff(indent, text, behind);
    }
    if text == "" {
      BlankComesOff(indent, behind);
    }
  }

  lemma StarIsInk()
    ensures !IsSpace('*')
  {
  }

  lemma PlainComesOff(indent: string, text: string, behind: string)
    requires AllSpace(indent) && AllSpace(behind) && text != "" && !IsSpace(text[|text| - 1])
    requires !IsSpace(text[0]) && text[0] != '*'
    ensures StripLine(indent + (text + behind)) == text && StripLine(indent + ("*" + (text + behind))) == text
  {
    hide IsSpace, TrimEnd, TrimStart, AllSpace;
    StarIsInk();
    TrimsEnd(text, behind);
    TrimsStart(indent, text + behind);
    TrimsStart(indent, "*" + (text + behind));
    assert ("*" + (text + behind))[1..] == text + behind;
  }

  lemma BlankComesOff(indent: string, behind: string)
    requires AllSpace(indent) && AllSpace(behind)
    ensures StripLine(indent + ("" + behind)) == "" && StripLine(indent + ("*" + ("" + behind))) == ""
  {
    hide IsSpace, TrimEnd, TrimStart;
    StarIsInk();
    var all := indent + behind;
    assert "" + behind == behind && all + "" == all && "" + all == all;
    assert AllSpace(all);
    TrimsStart(all, "");
    TrimsEnd("", "");
    TrimsStart(indent, "*" + behind);
    assert ("*" + behind)[1..] == behind;
    if behind != "" {
      assert "" + behind[1..] == behind[1..] && forall c :: c in behind[1..] ==> c in behind;
      TrimsEnd("", behind[1..]);
    }
    assert "" + "" == "";
  }

  /** The delimiters of a comment come off, and its lines are stripped one by one. */
  lemma DelimitersComeOff(body: string)
    ensures |InnerLines("/**" + (body + "*/"))| == |Split(body, '\n')|
    ensures forall i :: 0 <= i < |Split(body, '\n')| ==>
              InnerLines("/**" + (body + "*/"))[i] == StripLine(Split(body, '\n')[i])
  {
    hide Split, StripLine;
    var raw := "/**" + (body + "*/");
    assert raw[..3] == "/**" && raw[3..] == body + "*/";
    assert (body + "*/")[|body|..] == "*/" && (body + "*/")[..|body|] == body;
    StripEach(Split(body, '\n'));
  }

  lemma {:induction false} StripEach(lines: seq<string>)
    ensures |StripLines(lines)| == |lines|
    ensures forall i :: 0 <= i < |lines| ==> StripLines(lines)[i] == StripLine(lines[i])
  {
    hide StripLine;
    if lines != [] {
      StripEach(lines[1..]);
    }
  }

  function StripLines(lines: seq<string>): seq<string> {
    if lines == [] then [] else [StripLine(lines[0])] + StripLines(lines[1..])
  }

  /** The lines between the delimiters, without their stars. */
  function InnerLines(raw: string): seq<string> {
    StripLines(Split(StripClose(StripOpen(raw)), '\n'))
  }

  lemma ModeNext(lines: seq<string>, i: nat, mode: Option<Mode>, hasMode: bool)
    requires i < |lines| && IsModeOf(lines[..i], mode, hasMode)
    ensures IsModeOf(lines[..i + 1], if ModeOf(lines[i]).Some? then ModeOf(lines[i]) else mode,
                     hasMode || IsModeTag(lines[i]))
  {
    hide ModeOf, IsModeTag;
    assert lines[..i + 1] == lines[..i] + [lines[i]];
    if ModeOf(lines[i]).Some? {
      assert lines[..i + 1][i] == lines[i];
    }
  }

  lemma ValidModeIsModeTag(line: string)
    requires ModeOf(line).Some?
    ensures IsModeTag(line) && IsTag(line)
  {
    hide TrimStart, TrimEnd;
  }

  lemma ModeTagIsTag(line: string)
    requires IsModeTag(line)
    ensures IsTag(line)
  {
    hide TrimStart;
  }

  lemma ProseNext(lines: seq<string>, i: nat)
    requires i < |lines|
    ensures Prose(lines[i..]) == if IsTag(lines[i]) then [] else [lines[i]] + Prose(lines[i + 1..])
  {
    hide IsTag;
    assert lines[i..][1..] == lines[i + 1..];
  }

  /** Parse a JSDoc block, up to link substitution: its prose as blocks, and its mode tag. */
  method ParseJsDoc(raw: string) returns (doc: JsDoc)
    ensures doc.prose == JoinBy(Blocks(Prose(InnerLines(raw))), "\n\n")
    ensures IsModeOf(InnerLines(raw), doc.mode, doc.hasMode)
  {
    hide IsTag, IsModeTag, ModeOf, Pending, Blocks, IsModeOf, Prose, InnerLines, JoinBy, Collapse, Flushed, IsItem;
    var inner := InnerLines(raw);
    var mode, hasMode, inTags := None, false, false;
    var b := new Buffers();
    NothingYet(inner);
    for i := 0 to |inner|
      invariant IsModeOf(inner[..i], mode, hasMode)
      invariant Steady(b.list, b.item, b.para)
      invariant !inTags ==> b.blocks + Pending(b.list, b.item, b.para, Prose(inner[i..])) == Blocks(Prose(inner))
      invariant inTags ==> b.blocks == Blocks(Prose(inner)) && b.list == [] && b.item == [] && b.para == []
    {
      var line := inner[i];
      ModeNext(inner, i, mode, hasMode);
      ProseNext(inner, i);
      if ModeOf(line).Some? {
        ValidModeIsModeTag(line);
        mode := ModeOf(line);
        hasMode := true;
      } else if IsModeTag(line) {
        ModeTagIsTag(line);
        hasMode := true;
      }
      if IsTag(line) {
        TagEnds(b.blocks, b.list, b.item, b.para);
        b.FlushPara();
        inTags := true;
      } else if !inTags {
        b.Take(line);
      }
    }
    TagEnds(b.blocks, b.list, b.item, b.para);
    assert inner[|inner|..] == [] && inner[..|inner|] == inner;
    NoProse();
    assert inTags ==> b.blocks + Flushed(b.list, b.item, b.para) == b.blocks;
    b.FlushPara();
    doc := JsDoc(JoinBy(b.blocks, "\n\n"), mode, hasMode);
  }

  lemma NoProse()
    ensures Prose([]) == []
  {
  }

  lemma NothingYet(inner: seq<string>)
    ensures IsModeOf(inner[..0], None, false)
    ensures [] + Pending([], [], [], Prose(inner[0..])) == Blocks(Prose(inner))
  {
    assert inner[0..] == inner;
  }

  lemma TagEnds(blocks: seq<string>, list: seq<string>, item: seq<string>, para: seq<string>)
    requires Steady(list, item, para)
    ensures blocks + Pending(list, item, para, []) == blocks + Flushed(list, item, para)
    ensures Flushed([], [], []) == []
  {
    FlushPending(list, item, para, []);
  }

  /** The parsed prose holds exactly the words before the first block tag, in order. */
  lemma ProseKeepsWords(lines: seq<string>)
    ensures Words(JoinBy(Blocks(Prose(lines)), "\n\n")) == WordsOf(Prose(lines))
  {
    hide Words, Blocks, Prose, JoinBy;
    JoinKeepsWords(Blocks(Prose(lines)), "\n\n");
    BlocksKeepWords(Prose(lines));
  }
}
