/** Locating the authored destination of a Markdown link, image or definition. */
module MarkdownDestinations {

  import opened Text

  /** Text in which delimiters nest and a backslash takes away the meaning of the next character. */
  datatype Nested =
    | Empty
    | Plain(c: char, rest: Nested)
    | Escaped(c: char, rest: Nested)
    | Group(inner: Nested, rest: Nested)

  /** No plain character is a backslash or a delimiter. */
  predicate Fits(b: Nested, open: char, close: char) {
    match b
    case Empty => true
    case Plain(c, rest) => c != '\\' && c != open && c != close && Fits(rest, open, close)
    case Escaped(_, rest) => Fits(rest, open, close)
    case Group(inner, rest) => Fits(inner, open, close) && Fits(rest, open, close)
  }

  function Show(b: Nested, open: char, close: char): string {
    match b
    case Empty => ""
    case Plain(c, rest) => [c] + Show(rest, open, close)
    case Escaped(c, rest) => ['\\', c] + Show(rest, open, close)
    case Group(inner, rest) => [open] + Show(inner, open, close) + [close] + Show(rest, open, close)
  }

  /** Outside every pair of parentheses there is no plain whitespace. */
  predicate Unspaced(b: Nested) {
    match b
    case Empty => true
    case Plain(c, rest) => !IsSpace(c) && Unspaced(rest)
    case Escaped(_, rest) => Unspaced(rest)
    case Group(_, rest) => Unspaced(rest)
  }

  ghost predicate At(s: string, i: nat, t: string) {
    i + |t| <= |s| && s[i..i + |t|] == t
  }

  lemma AtSplit(s: string, i: nat, t: string, u: string)
    ensures At(s, i, t + u) <==> At(s, i, t) && At(s, i + |t|, u)
  {
    if At(s, i, t) && At(s, i + |t|, u) {
      assert s[i..i + |t + u|] == s[i..i + |t|] + s[i + |t|..i + |t| + |u|];
    }
    if At(s, i, t + u) {
      assert t == (t + u)[..|t|] && u == (t + u)[|t|..];
      assert s[i..i + |t + u|][..|t|] == s[i..i + |t|];
      assert s[i..i + |t + u|][|t|..] == s[i + |t|..i + |t| + |u|];
    }
  }

  lemma AtFirst(s: string, i: nat, t: string, c: char)
    requires At(s, i, [c] + t)
    ensures i < |s| && s[i] == c && At(s, i + 1, t)
  {
    AtSplit(s, i, [c], t);
    assert s[i..i + 1][0] == s[i];
  }

  lemma SliceOne(s: string, i: nat, j: nat)
    requires i < j <= |s|
    ensures s[i..j] == [s[i]] + s[i + 1..j]
    ensures s[i..j] + [')'] == [s[i]] + (s[i + 1..j] + [')'])
  {
  }

  lemma SliceTwo(s: string, i: nat, j: nat)
    requires i + 2 <= j <= |s|
    ensures s[i..j] == [s[i], s[i + 1]] + s[i + 2..j]
    ensures s[i..j] + [')'] == [s[i], s[i + 1]] + (s[i + 2..j] + [')'])
  {
  }

  // ----- labels -----

  /** The bracket that closes the label open at `depth`, from position `i` on; -1 when there is none. */
  function LabelScan(s: string, i: nat, depth: nat): (e: int)
    requires depth > 0
    ensures e == -1 || i <= e < |s|
    decreases |s| - i
  {
    if i >= |s| then -1
    else if s[i] == '\\' then LabelScan(s, i + 2, depth)
    else if s[i] == '[' then LabelScan(s, i + 1, depth + 1)
    else if s[i] == ']' then if depth == 1 then i else LabelScan(s, i + 1, depth - 1)
    else LabelScan(s, i + 1, depth)
  }

  function LabelClose(s: string): int {
    var first := IndexOf(s, '[', 0);
    if first == -1 then -1 else LabelScan(s, first + 1, 1)
  }

  method LabelEnd(source: string) returns (e: int)
    ensures e == LabelClose(source)
  {
    var first := IndexOf(source, '[', 0);
    if first == -1 {
      return -1;
    }
    var depth, index := 0, first;
    while index < |source|
      invariant first <= index && depth >= 0
      invariant depth == 0 ==> index == first
      invariant depth > 0 ==> LabelClose(source) == LabelScan(source, index, depth)
    {
      var c := source[index];
      if c == '\\' {
        index := index + 1;
      } else if c == '[' {
        depth := depth + 1;
      } else if c == ']' {
        depth := depth - 1;
        if depth == 0 {
          return index;
        }
      }
      index := index + 1;
    }
    return -1;
  }

  /** `e` closes the bracket-balanced label that the first `[` opens. */
  ghost predicate ClosesLabel(s: string, e: int) {
    exists first: nat, b :: LabelSpan(s, first, b) && e == first + 1 + |Show(b, '[', ']')|
  }

  ghost predicate LabelSpan(s: string, first: nat, b: Nested) {
    && first <= |s| && '[' !in s[..first] && Fits(b, '[', ']')
    && At(s, first, ['['] + (Show(b, '[', ']') + [']']))
  }

  /** Scanning passes over balanced text without changing depth. */
  lemma {:induction false} LabelPasses(s: string, i: nat, b: Nested, depth: nat)
    requires depth > 0 && Fits(b, '[', ']') && At(s, i, Show(b, '[', ']'))
    ensures LabelScan(s, i, depth) == LabelScan(s, i + |Show(b, '[', ']')|, depth)
    decreases b
  {
    hide At, Show, IsSpace;
    ShowLength(b, '[', ']');
    match b {
      case Empty =>
      case Plain(c, rest) =>
        AtPlain(s, i, c, rest, '[', ']');
        LabelPasses(s, i + 1, rest, depth);
      case Escaped(c, rest) =>
        AtEscaped(s, i, c, rest, '[', ']');
        LabelPasses(s, i + 2, rest, depth);
      case Group(inner, rest) =>
        AtGroup(s, i, inner, rest, '[', ']');
        LabelPasses(s, i + 1, inner, depth + 1);
        LabelPasses(s, i + 2 + |Show(inner, '[', ']')|, rest, depth);
    }
  }

  lemma ShowLength(b: Nested, open: char, close: char)
    ensures match b
            case Empty => Show(b, open, close) == ""
            case Plain(_, rest) => |Show(b, open, close)| == 1 + |Show(rest, open, close)|
            case Escaped(_, rest) => |Show(b, open, close)| == 2 + |Show(rest, open, close)|
            case Group(inner, rest) =>
              |Show(b, open, close)| == 2 + |Show(inner, open, close)| + |Show(rest, open, close)|
  {
  }

  lemma AtPlain(s: string, i: nat, c: char, rest: Nested, open: char, close: char)
    requires At(s, i, Show(Plain(c, rest), open, close))
    ensures i < |s| && s[i] == c && At(s, i + 1, Show(rest, open, close))
  {
    hide At;
    AtFirst(s, i, Show(rest, open, close), c);
  }

  lemma AtEscaped(s: string, i: nat, c: char, rest: Nested, open: char, close: char)
    requires At(s, i, Show(Escaped(c, rest), open, close))
    ensures i + 1 < |s| && s[i] == '\\' && s[i + 1] == c && At(s, i + 2, Show(rest, open, close))
  {
    hide At;
    var t := Show(rest, open, close);
    assert ['\\', c] + t == ['\\'] + ([c] + t);
    AtFirst(s, i, [c] + t, '\\');
    AtFirst(s, i + 1, t, c);
  }

  lemma AtGroup(s: string, i: nat, inner: Nested, rest: Nested, open: char, close: char)
    requires At(s, i, Show(Group(inner, rest), open, close))
    ensures var t := Show(inner, open, close);
            && i + 1 + |t| < |s| && s[i] == open && At(s, i + 1, t)
            && s[i + 1 + |t|] == close && At(s, i + 2 + |t|, Show(rest, open, close))
  {
    hide At;
    var t, u := Show(inner, open, close), Show(rest, open, close);
    assert Show(Group(inner, rest), open, close) == [open] + (t + ([close] + u));
    AtFirst(s, i, t + ([close] + u), open);
    AtSplit(s, i + 1, t, [close] + u);
    AtFirst(s, i + 1 + |t|, u, close);
  }

  /** The pieces up to each of the `depth` closing brackets still owed. */
  ghost function ShowAll(bs: seq<Nested>, open: char, close: char): string {
    if bs == [] then "" else Show(bs[0], open, close) + [close] + ShowAll(bs[1..], open, close)
  }

  ghost predicate AllFit(bs: seq<Nested>, open: char, close: char) {
    forall b :: b in bs ==> Fits(b, open, close)
  }

  lemma NothingOwed(open: char, close: char) returns (bs: seq<Nested>)
    ensures bs == [] && AllFit(bs, open, close) && ShowAll(bs, open, close) == ""
  {
    bs := [];
  }

  /** A scan that ends has read balanced text for every bracket that was open. */
  lemma {:induction false} LabelRead(s: string, i: nat, depth: nat) returns (bs: seq<Nested>)
    requires depth > 0 && LabelScan(s, i, depth) != -1
    ensures |bs| == depth && AllFit(bs, '[', ']')
    ensures s[i..LabelScan(s, i, depth) + 1] == ShowAll(bs, '[', ']')
    decreases |s| - i
  {
    hide ShowAll, Show, AllFit, Fits;
    var j := LabelScan(s, i, depth) + 1;
    if s[i] == '\\' {
      bs := LabelRead(s, i + 2, depth);
      bs := PrependEscaped(s[i + 1], s[i + 2..j], bs, '[', ']');
      SliceTwo(s, i, j);
    } else if s[i] == '[' {
      bs := LabelRead(s, i + 1, depth + 1);
      bs := PrependGroup(s[i + 1..j], bs, '[', ']');
      SliceOne(s, i, j);
    } else if s[i] == ']' {
      if depth > 1 {
        bs := LabelRead(s, i + 1, depth - 1);
      } else {
        bs := NothingOwed('[', ']');
      }
      bs := PrependClose(s[i + 1..j], bs, '[', ']');
      SliceOne(s, i, j);
    } else {
      bs := LabelRead(s, i + 1, depth);
      bs := PrependPlain(s[i], s[i + 1..j], bs, '[', ']');
      SliceOne(s, i, j);
    }
  }

  lemma PrependPlain(c: char, t: string, bs: seq<Nested>, open: char, close: char) returns (r: seq<Nested>)
    requires bs != [] && AllFit(bs, open, close) && t == ShowAll(bs, open, close)
    requires c != '\\' && c != open && c != close
    ensures r == [Plain(c, bs[0])] + bs[1..]
    ensures AllFit(r, open, close) && [c] + t == ShowAll(r, open, close)
  {
    r := [Plain(c, bs[0])] + bs[1..];
    assert ([c] + Show(bs[0], open, close)) + [close] + ShowAll(bs[1..], open, close)
        == [c] + (Show(bs[0], open, close) + [close] + ShowAll(bs[1..], open, close));
  }

  lemma PrependEscaped(c: char, t: string, bs: seq<Nested>, open: char, close: char) returns (r: seq<Nested>)
    requires bs != [] && AllFit(bs, open, close) && t == ShowAll(bs, open, close)
    ensures r == [Escaped(c, bs[0])] + bs[1..]
    ensures AllFit(r, open, close) && ['\\', c] + t == ShowAll(r, open, close)
  {
    r := [Escaped(c, bs[0])] + bs[1..];
    assert (['\\', c] + Show(bs[0], open, close)) + [close] + ShowAll(bs[1..], open, close)
        == ['\\', c] + (Show(bs[0], open, close) + [close] + ShowAll(bs[1..], open, close));
  }

  lemma PrependGroup(t: string, bs: seq<Nested>, open: char, close: char) returns (r: seq<Nested>)
    requires |bs| >= 2 && AllFit(bs, open, close) && t == ShowAll(bs, open, close)
    ensures r == [Group(bs[0], bs[1])] + bs[2..]
    ensures AllFit(r, open, close) && [open] + t == ShowAll(r, open, close)
  {
    r := [Group(bs[0], bs[1])] + bs[2..];
    var first, second, rest := Show(bs[0], open, close), Show(bs[1], open, close), ShowAll(bs[2..], open, close);
    assert bs[1..][1..] == bs[2..];
    assert t == first + [close] + (second + [close] + rest);
    assert ([open] + first + [close] + second) + [close] + rest
        == [open] + (first + [close] + (second + [close] + rest));
  }

  lemma PrependClose(t: string, bs: seq<Nested>, open: char, close: char) returns (r: seq<Nested>)
    requires AllFit(bs, open, close) && t == ShowAll(bs, open, close)
    ensures r == [Empty] + bs
    ensures AllFit(r, open, close) && [close] + t == ShowAll(r, open, close)
  {
    r := [Empty] + bs;
    assert "" + [close] + t == [close] + t;
  }

  lemma LabelFound(s: string, first: nat, b: Nested)
    requires LabelSpan(s, first, b)
    ensures LabelClose(s) == first + 1 + |Show(b, '[', ']')|
  {
    hide Show, Fits, At, LabelScan;
    var t := Show(b, '[', ']');
    AtFirst(s, first, t + [']'], '[');
    AtSplit(s, first + 1, t, [']']);
    assert [']'] + "" == [']'];
    AtFirst(s, first + 1 + |t|, "", ']');
    assert forall k :: 0 <= k < first ==> s[k] == s[..first][k];
    LabelPasses(s, first + 1, b, 1);
    ClosesHere(s, first + 1 + |t|);
  }

  lemma ClosesHere(s: string, i: nat)
    requires i < |s| && s[i] == ']'
    ensures LabelScan(s, i, 1) == i
  {
  }

  /** The scanner finds `e` exactly when `e` closes the balanced label the first `[` opens. */
  lemma LabelExactly(s: string, e: nat)
    ensures LabelClose(s) == e <==> ClosesLabel(s, e)
  {
    if LabelClose(s) == e {
      var first := IndexOf(s, '[', 0);
      var bs := LabelRead(s, first + 1, 1);
      assert bs[1..] == [];
      assert s[first..e + 1] == ['['] + s[first + 1..e + 1];
      assert Show(bs[0], '[', ']') + [']'] + "" == Show(bs[0], '[', ']') + [']'];
      assert LabelSpan(s, first, bs[0]);
    }
    if ClosesLabel(s, e) {
      var first: nat, b :| LabelSpan(s, first, b) && e == first + 1 + |Show(b, '[', ']')|;
      LabelFound(s, first, b);
    }
  }

  // ----- destinations -----

  /** The end of the bare destination scanned from `i` on inside `depth` open parentheses. */
  function BareEnd(s: string, i: nat, depth: nat): (e: nat)
    ensures e <= |s| && (i <= |s| ==> i <= e)
    decreases |s| - i
  {
    if i >= |s| then |s|
    else if s[i] == '\\' then BareEnd(s, i + 2, depth)
    else if s[i] == '(' then BareEnd(s, i + 1, depth + 1)
    else if s[i] == ')' then if depth == 0 then i else BareEnd(s, i + 1, depth - 1)
    else if IsSpace(s[i]) && depth == 0 then i
    else BareEnd(s, i + 1, depth)
  }

  /** The `>` that closes an angle-bracketed destination; -1 when there is none. */
  function AngleEnd(s: string, i: nat): (e: int)
    ensures e == -1 || i <= e < |s|
    decreases |s| - i
  {
    if i >= |s| then -1
    else if s[i] == '\\' then AngleEnd(s, i + 2)
    else if s[i] == '>' then i
    else AngleEnd(s, i + 1)
  }

  function Skip(s: string, i: nat): (r: nat)
    ensures r >= i && (i <= |s| ==> r <= |s|)
    decreases |s| - i
  {
    if i < |s| && IsSpace(s[i]) then Skip(s, i + 1) else i
  }

  predicate Flat(b: Nested) {
    match b
    case Empty => true
    case Plain(_, rest) => Flat(rest)
    case Escaped(_, rest) => Flat(rest)
    case Group(_, _) => false
  }

  lemma {:induction false} BarePasses(s: string, i: nat, b: Nested, depth: nat)
    requires Fits(b, '(', ')') && At(s, i, Show(b, '(', ')')) && (depth > 0 || Unspaced(b))
    ensures BareEnd(s, i, depth) == BareEnd(s, i + |Show(b, '(', ')')|, depth)
    decreases b
  {
    hide At, Show, IsSpace;
    ShowLength(b, '(', ')');
    match b {
      case Empty =>
      case Plain(c, rest) =>
        AtPlain(s, i, c, rest, '(', ')');
        BarePasses(s, i + 1, rest, depth);
      case Escaped(c, rest) =>
        AtEscaped(s, i, c, rest, '(', ')');
        BarePasses(s, i + 2, rest, depth);
      case Group(inner, rest) =>
        AtGroup(s, i, inner, rest, '(', ')');
        BarePasses(s, i + 1, inner, depth + 1);
        BarePasses(s, i + 2 + |Show(inner, '(', ')')|, rest, depth);
    }
  }

  lemma UnspacedParts()
    ensures Unspaced(Empty)
    ensures forall c, rest :: Unspaced(Plain(c, rest)) <==> !IsSpace(c) && Unspaced(rest)
    ensures forall c, rest :: Unspaced(Escaped(c, rest)) <==> Unspaced(rest)
    ensures forall inner, rest :: Unspaced(Group(inner, rest)) <==> Unspaced(rest)
  {
    hide IsSpace;
  }

  lemma {:induction false} BareRead(s: string, i: nat, depth: nat) returns (bs: seq<Nested>)
    requires BareEnd(s, i, depth) < |s|
    ensures |bs| == depth + 1 && AllFit(bs, '(', ')') && Unspaced(bs[depth])
    ensures s[i..BareEnd(s, i, depth)] + [')'] == ShowAll(bs, '(', ')')
    decreases |s| - i
  {
    hide ShowAll, Show, AllFit, Fits, IsSpace, Unspaced;
    UnspacedParts();
    var j := BareEnd(s, i, depth);
    if s[i] == '\\' {
      bs := BareRead(s, i + 2, depth);
      bs := PrependEscaped(s[i + 1], s[i + 2..j] + [')'], bs, '(', ')');
      SliceTwo(s, i, j);
    } else if s[i] == '(' {
      bs := BareRead(s, i + 1, depth + 1);
      bs := PrependGroup(s[i + 1..j] + [')'], bs, '(', ')');
      SliceOne(s, i, j);
    } else if depth == 0 && (s[i] == ')' || IsSpace(s[i])) {
      bs := NothingOwed('(', ')');
      bs := PrependClose("", bs, '(', ')');
      assert s[i..j] + [')'] == [')'] + "";
    } else if s[i] == ')' {
      bs := BareRead(s, i + 1, depth - 1);
      bs := PrependClose(s[i + 1..j] + [')'], bs, '(', ')');
      SliceOne(s, i, j);
    } else {
      bs := BareRead(s, i + 1, depth);
      bs := PrependPlain(s[i], s[i + 1..j] + [')'], bs, '(', ')');
      SliceOne(s, i, j);
    }
  }

  ghost predicate BareSpan(s: string, i: nat, e: nat, b: Nested) {
    && i <= e < |s| && (s[e] == ')' || IsSpace(s[e]))
    && Fits(b, '(', ')') && Unspaced(b) && s[i..e] == Show(b, '(', ')')
  }

  lemma BareStops(s: string, i: nat, depth: nat)
    requires BareEnd(s, i, depth) < |s|
    ensures var c := s[BareEnd(s, i, depth)]; c == ')' || IsSpace(c)
    decreases |s| - i
  {
  }

  lemma BareFound(s: string, i: nat, e: nat, b: Nested)
    requires BareSpan(s, i, e, b)
    ensures BareEnd(s, i, 0) == e
  {
    hide Show, Fits, Unspaced;
    BarePasses(s, i, b, 0);
  }

  /**
   * A bare destination ends inside the text exactly after balanced text without outer whitespace, at `)` or a space.
   */
  lemma BareExactly(s: string, i: nat, e: nat)
    requires i <= |s| && e < |s|
    ensures BareEnd(s, i, 0) == e <==> exists b :: BareSpan(s, i, e, b)
  {
    hide IsSpace;
    if BareEnd(s, i, 0) == e {
      var bs := BareRead(s, i, 0);
      BareStops(s, i, 0);
      var t := Show(bs[0], '(', ')');
      assert bs[1..] == [] && ShowAll(bs, '(', ')') == t + [')'] + "";
      assert s[i..e] == (s[i..e] + [')'])[..e - i];
      assert t == (t + [')'] + "")[..|t|];
      assert |s[i..e] + [')']| == e - i + 1;
      assert BareSpan(s, i, e, bs[0]);
    }
    if b :| BareSpan(s, i, e, b) {
      BareFound(s, i, e, b);
    }
  }

  lemma {:induction false} AnglePasses(s: string, i: nat, b: Nested)
    requires Fits(b, '>', '>') && Flat(b) && At(s, i, Show(b, '>', '>'))
    ensures AngleEnd(s, i) == AngleEnd(s, i + |Show(b, '>', '>')|)
    decreases b
  {
    hide At, Show;
    ShowLength(b, '>', '>');
    match b {
      case Empty =>
      case Plain(c, rest) =>
        AtPlain(s, i, c, rest, '>', '>');
        AnglePasses(s, i + 1, rest);
      case Escaped(c, rest) =>
        AtEscaped(s, i, c, rest, '>', '>');
        AnglePasses(s, i + 2, rest);
    }
  }

  lemma {:induction false} AngleRead(s: string, i: nat) returns (b: Nested)
    requires AngleEnd(s, i) != -1
    ensures Fits(b, '>', '>') && Flat(b) && s[i..AngleEnd(s, i)] == Show(b, '>', '>')
    decreases |s| - i
  {
    var j := AngleEnd(s, i);
    if s[i] == '\\' {
      var rest := AngleRead(s, i + 2);
      b := Escaped(s[i + 1], rest);
      assert s[i..j] == ['\\', s[i + 1]] + s[i + 2..j];
    } else if s[i] == '>' {
      b := Empty;
    } else {
      var rest := AngleRead(s, i + 1);
      b := Plain(s[i], rest);
      assert s[i..j] == [s[i]] + s[i + 1..j];
    }
  }

  ghost predicate AngleSpan(s: string, i: nat, e: nat, b: Nested) {
    i <= e < |s| && s[e] == '>' && Fits(b, '>', '>') && Flat(b) && s[i..e] == Show(b, '>', '>')
  }

  lemma AngleFound(s: string, i: nat, e: nat, b: Nested)
    requires AngleSpan(s, i, e, b)
    ensures AngleEnd(s, i) == e
  {
    hide Show, Fits, Flat;
    AnglePasses(s, i, b);
  }

  lemma {:induction false} AngleStops(s: string, i: nat)
    requires AngleEnd(s, i) != -1
    ensures s[AngleEnd(s, i)] == '>'
    decreases |s| - i
  {
    if s[i] == '\\' {
      AngleStops(s, i + 2);
    } else if s[i] != '>' {
      AngleStops(s, i + 1);
    }
  }

  /** An angle-bracketed destination ends exactly at the first `>` that no backslash escapes. */
  lemma AngleExactly(s: string, i: nat, e: nat)
    ensures AngleEnd(s, i) == e <==> exists b :: AngleSpan(s, i, e, b)
  {
    if AngleEnd(s, i) == e {
      var b := AngleRead(s, i);
      AngleStops(s, i);
      assert AngleSpan(s, i, e, b);
    }
    if b :| AngleSpan(s, i, e, b) {
      AngleFound(s, i, e, b);
    }
  }

  // ----- the scanner -----

  datatype Kind = Link | Image | Definition

  /** Where the destination lies in its node, or which of the four errors is thrown. */
  datatype Range = Found(start: nat, end: nat) | NoLabel | NoSeparator | NoInline | NoAngleEnd

  function LocateFrom(raw: string, start: nat): Range {
    if start < |raw| && raw[start] == '<' then
      var e := AngleEnd(raw, start + 1);
      if e == -1 then NoAngleEnd else Found(start + 1, e)
    else Found(start, BareEnd(raw, start, 0))
  }

  function Locate(raw: string, kind: Kind): Range {
    var e := LabelClose(raw);
    if e == -1 then NoLabel
    else if kind.Definition? then
      var colon := IndexOf(raw, ':', e + 1);
      if colon == -1 then NoSeparator else LocateFrom(raw, Skip(raw, colon + 1))
    else if e + 1 >= |raw| || raw[e + 1] != '(' then NoInline
    else LocateFrom(raw, Skip(raw, e + 2))
  }

  /** Right behind the separator that follows the label: a colon further on, or a parenthesis next to it. */
  ghost predicate Behind(raw: string, kind: Kind, s: nat) {
    exists e: nat :: ClosesLabel(raw, e) && e + 1 < s <= |raw|
                     && if kind.Definition? then raw[s - 1] == ':' && ':' !in raw[e + 1..s - 1]
                        else s == e + 2 && raw[e + 1] == '('
  }

  /** The first character of the destination, with nothing but whitespace before it. */
  ghost predicate StartsAt(raw: string, kind: Kind, start: nat) {
    exists s: nat :: s <= start <= |raw| && Behind(raw, kind, s)
                     && (forall k :: s <= k < start ==> IsSpace(raw[k])) && (start < |raw| ==> !IsSpace(raw[start]))
  }

  lemma {:induction false} SkipExactly(s: string, i: nat, r: nat)
    requires i <= |s|
    ensures Skip(s, i) == r <==>
            i <= r <= |s| && (forall k :: i <= k < r ==> IsSpace(s[k])) && (r < |s| ==> !IsSpace(s[r]))
    decreases |s| - i
  {
    hide IsSpace;
    if i < |s| && IsSpace(s[i]) {
      SkipExactly(s, i + 1, r);
    }
  }

  lemma OneLabel(raw: string, e: nat)
    requires ClosesLabel(raw, e)
    ensures LabelClose(raw) == e
  {
    LabelExactly(raw, e);
  }

  lemma BehindIsScanned(raw: string, kind: Kind, s: nat)
    requires Behind(raw, kind, s)
    ensures Locate(raw, kind) == LocateFrom(raw, Skip(raw, s))
  {
    hide ClosesLabel, LabelClose, LocateFrom, Skip;
    var e: nat :| ClosesLabel(raw, e) && e + 1 < s <= |raw|
                  && if kind.Definition? then raw[s - 1] == ':' && ':' !in raw[e + 1..s - 1]
                     else s == e + 2 && raw[e + 1] == '(';
    OneLabel(raw, e);
    if kind.Definition? {
      assert forall k :: e + 1 <= k < s - 1 ==> raw[k] == raw[e + 1..s - 1][k - e - 1];
      assert IndexOf(raw, ':', e + 1) == s - 1;
    }
  }

  /** Where the scanner starts on the destination, it starts with its first character. */
  lemma StartExactly(raw: string, kind: Kind, start: nat)
    requires StartsAt(raw, kind, start)
    ensures Locate(raw, kind) == LocateFrom(raw, start)
  {
    hide Behind, LocateFrom, Skip, IsSpace, Locate;
    var s: nat :| s <= start <= |raw| && Behind(raw, kind, s)
                  && (forall k :: s <= k < start ==> IsSpace(raw[k])) && (start < |raw| ==> !IsSpace(raw[start]));
    SkipExactly(raw, s, start);
    BehindIsScanned(raw, kind, s);
  }

  /** With a label that closes, either its separator is missing or the destination starts somewhere. */
  lemma StartsSomewhere(raw: string, kind: Kind, e: nat) returns (start: nat)
    requires ClosesLabel(raw, e)
    requires if kind.Definition? then ':' in raw[e + 1..] else e + 1 < |raw| && raw[e + 1] == '('
    ensures StartsAt(raw, kind, start)
  {
    hide ClosesLabel, IsSpace, Skip;
    var s := e + 2;
    if kind.Definition? {
      var k :| 0 <= k < |raw[e + 1..]| && raw[e + 1..][k] == ':';
      assert raw[e + 1 + k] == ':';
      s := IndexOf(raw, ':', e + 1) + 1;
    }
    assert Behind(raw, kind, s);
    start := Skip(raw, s);
    SkipExactly(raw, s, start);
  }

  lemma ClosesInside(raw: string, e: nat)
    requires ClosesLabel(raw, e)
    ensures e < |raw|
  {
    OneLabel(raw, e);
    hide LabelClose, LabelScan;
    CloseInside(raw);
  }

  lemma CloseInside(raw: string)
    ensures LabelClose(raw) < |raw|
  {
  }

  /**
   * Each error exactly when its part is missing: a label that closes, the separator behind it, or the end of a
   * destination that starts with an angle bracket.
   */
  lemma ErrorsExactly(raw: string, kind: Kind)
    ensures Locate(raw, kind) == NoLabel <==> forall e: nat :: !ClosesLabel(raw, e)
    ensures Locate(raw, kind) == NoSeparator <==>
            kind.Definition? && exists e: nat :: ClosesLabel(raw, e) && e < |raw| && ':' !in raw[e + 1..]
    ensures Locate(raw, kind) == NoInline <==>
            !kind.Definition? && exists e: nat :: ClosesLabel(raw, e) && !(e + 1 < |raw| && raw[e + 1] == '(')
    ensures Locate(raw, kind) == NoAngleEnd <==>
            exists start: nat :: StartsAt(raw, kind, start) && start < |raw| && raw[start] == '<'
                                 && LeftOpen(raw, start + 1)
  {
    hide ClosesLabel, StartsAt, LeftOpen, Skip, LabelClose, AngleEnd, BareEnd;
    if start: nat :| StartsAt(raw, kind, start) && start < |raw| && raw[start] == '<' && LeftOpen(raw, start + 1) {
      StartExactly(raw, kind, start);
      OpenExactly(raw, start + 1);
    }
    if e: nat :| ClosesLabel(raw, e) {
      OneLabel(raw, e);
      ClosesInside(raw, e);
      forall other: nat | ClosesLabel(raw, other) ensures other == e { OneLabel(raw, other); }
      if if kind.Definition? then ':' in raw[e + 1..] else e + 1 < |raw| && raw[e + 1] == '(' {
        var start := StartsSomewhere(raw, kind, e);
        StartExactly(raw, kind, start);
        OpenExactly(raw, start + 1);
      } else {
        NoStart(raw, kind, e);
      }
    } else {
      NoClose(raw);
    }
  }

  /** No `>` that no backslash escapes ends a destination in angle brackets that starts at `i`. */
  ghost predicate LeftOpen(raw: string, i: nat) {
    forall e: nat, b :: !AngleSpan(raw, i, e, b)
  }

  lemma OpenExactly(raw: string, i: nat)
    ensures AngleEnd(raw, i) == -1 <==> LeftOpen(raw, i)
  {
    hide AngleSpan;
    if AngleEnd(raw, i) != -1 {
      AngleExactly(raw, i, AngleEnd(raw, i));
    }
    if e: nat, b :| AngleSpan(raw, i, e, b) {
      AngleFound(raw, i, e, b);
    }
  }

  lemma NoClose(raw: string)
    requires forall e: nat :: !ClosesLabel(raw, e)
    ensures LabelClose(raw) == -1
  {
    hide ClosesLabel;
    if LabelClose(raw) >= 0 {
      LabelExactly(raw, LabelClose(raw));
    }
  }

  lemma NoStart(raw: string, kind: Kind, e: nat)
    requires ClosesLabel(raw, e) && e < |raw|
    requires if kind.Definition? then ':' !in raw[e + 1..] else !(e + 1 < |raw| && raw[e + 1] == '(')
    ensures forall start: nat :: !StartsAt(raw, kind, start)
    ensures Locate(raw, kind) == if kind.Definition? then NoSeparator else NoInline
  {
    hide ClosesLabel, LabelClose, IsSpace, Skip;
    OneLabel(raw, e);
    forall s: nat ensures !Behind(raw, kind, s) {
      NotBehind(raw, kind, e, s);
    }
    if kind.Definition? {
      NoColon(raw, e + 1);
    }
  }

  lemma NoColon(raw: string, from: nat)
    requires from <= |raw| && ':' !in raw[from..]
    ensures IndexOf(raw, ':', from) == -1
  {
    forall k | from <= k < |raw| ensures raw[k] != ':' {
      assert raw[k] == raw[from..][k - from];
    }
  }

  lemma NotBehind(raw: string, kind: Kind, e: nat, s: nat)
    requires ClosesLabel(raw, e) && e < |raw|
    requires if kind.Definition? then ':' !in raw[e + 1..] else !(e + 1 < |raw| && raw[e + 1] == '(')
    ensures !Behind(raw, kind, s)
  {
    hide ClosesLabel, LabelClose;
    OneLabel(raw, e);
    forall other: nat | ClosesLabel(raw, other) ensures other == e { OneLabel(raw, other); }
    if kind.Definition? && e + 1 < s <= |raw| {
      assert raw[e + 1..][s - 1 - (e + 1)] == raw[s - 1];
    }
  }

  method SkipWhitespace(source: string, start: nat) returns (index: nat)
    ensures index == Skip(source, start)
  {
    index := start;
    while index < |source| && IsSpace(source[index])
      invariant Skip(source, start) == Skip(source, index)
    {
      index := index + 1;
    }
  }

  method DestinationRange(raw: string, kind: Kind) returns (r: Range)
    ensures r == Locate(raw, kind)
  {
    var endOfLabel := LabelEnd(raw);
    if endOfLabel == -1 {
      return NoLabel;
    }
    var start: nat;
    if kind.Definition? {
      var colon := IndexOf(raw, ':', endOfLabel + 1);
      if colon == -1 {
        return NoSeparator;
      }
      start := SkipWhitespace(raw, colon + 1);
    } else {
      if endOfLabel + 1 >= |raw| || raw[endOfLabel + 1] != '(' {
        return NoInline;
      }
      start := SkipWhitespace(raw, endOfLabel + 2);
    }
    if start < |raw| && raw[start] == '<' {
      r := AngleRange(raw, start);
    } else {
      r := BareRange(raw, start);
    }
  }

  method AngleRange(raw: string, start: nat) returns (r: Range)
    requires start < |raw| && raw[start] == '<'
    ensures r == LocateFrom(raw, start)
  {
    var index := start + 1;
    while index < |raw|
      invariant index > start && AngleEnd(raw, start + 1) == AngleEnd(raw, index)
    {
      if raw[index] == '\\' {
        index := index + 1;
      } else if raw[index] == '>' {
        return Found(start + 1, index);
      }
      index := index + 1;
    }
    r := NoAngleEnd;
  }

  method BareRange(raw: string, start: nat) returns (r: Range)
    requires start >= |raw| || raw[start] != '<'
    ensures r == LocateFrom(raw, start)
  {
    hide IsSpace;
    var depth: nat, index: nat := 0, start;
    while index < |raw|
      invariant BareEnd(raw, start, 0) == BareEnd(raw, index, depth)
    {
      var c := raw[index];
      if c == '\\' {
        index := index + 1;
      } else if c == '(' {
        depth := depth + 1;
      } else if c == ')' {
        if depth == 0 {
          return Found(start, index);
        }
        depth := depth - 1;
      } else if IsSpace(c) && depth == 0 {
        return Found(start, index);
      }
      index := index + 1;
    }
    r := Found(start, |raw|);
  }

  // ----- printing -----

  datatype Destination = Angle(text: Nested) | Bare(text: Nested)

  function DestinationText(d: Destination): string {
    if d.Angle? then Show(d.text, '>', '>') else Show(d.text, '(', ')')
  }

  function DestinationSource(d: Destination): string {
    if d.Angle? then ['<'] + (DestinationText(d) + ['>']) else DestinationText(d)
  }

  /** A node up to its destination: the label and the separator its kind calls for. */
  function Head(kind: Kind, caption: Nested): string {
    Opening(kind) + (['['] + (Show(caption, '[', ']') + [']'])) + [Separator(kind)]
  }

  function Opening(kind: Kind): string {
    if kind.Image? then "!" else ""
  }

  function Separator(kind: Kind): char {
    if kind.Definition? then ':' else '('
  }

  function PrintNode(kind: Kind, caption: Nested, gap: string, d: Destination, tail: string): string {
    Head(kind, caption) + (gap + (DestinationSource(d) + tail))
  }

  // ----- what an author may write -----

  /** ASCII punctuation: all that a backslash escapes (section 2.4 of CommonMark). */
  predicate IsPunctuation(c: char) {
    '!' <= c <= '/' || ':' <= c <= '@' || '[' <= c <= '`' || '{' <= c <= '~'
  }

  predicate Punctuated(s: string) {
    s != "" && IsPunctuation(s[0])
  }

  /**
   * Balanced text with `after` behind it, as CommonMark reads it: a backslash escapes punctuation,
   * and before anything else it is a plain character itself.
   */
  predicate Written(b: Nested, open: char, close: char, after: string) {
    match b
    case Empty => true
    case Plain(c, rest) =>
      && c != open && c != close && Written(rest, open, close, after)
      && (c == '\\' ==> !Punctuated(Show(rest, open, close) + after))
    case Escaped(c, rest) => IsPunctuation(c) && Written(rest, open, close, after)
    case Group(inner, rest) => Written(inner, open, close, [close]) && Written(rest, open, close, after)
  }

  /** No plain ASCII control character and no space, inside parentheses or outside. */
  predicate Uncontrolled(b: Nested) {
    match b
    case Empty => true
    case Plain(c, rest) => c as int > 32 && c as int != 127 && Uncontrolled(rest)
    case Escaped(_, rest) => Uncontrolled(rest)
    case Group(inner, rest) => Uncontrolled(inner) && Uncontrolled(rest)
  }

  /** No line ending and no plain `<`. */
  predicate InAngles(b: Nested) {
    match b
    case Empty => true
    case Plain(c, rest) => c != '<' && c != '\n' && c != '\r' && InAngles(rest)
    case Escaped(_, rest) => InAngles(rest)
    case Group(_, _) => false
  }

  /** The whitespace that separates a destination from what stands around it. */
  predicate IsGap(c: char) {
    c == ' ' || c == '\t' || c == '\n' || c == '\r'
  }

  ghost predicate AllGap(gap: string) {
    forall c :: c in gap ==> IsGap(c)
  }

  /** What may stand before a destination: whitespace and, where a line ends, the block quote markers of the next. */
  ghost predicate Separates(gap: string) {
    forall c :: c in gap ==> IsGap(c) || c == '>'
  }

  /** A destination as section 6.3 of CommonMark allows it, with `tail` behind it. */
  ghost predicate Authored(d: Destination, tail: string) {
    match d
    case Angle(text) => Written(text, '>', '>', ">") && InAngles(text)
    case Bare(text) =>
      && Written(text, '(', ')', tail) && Uncontrolled(text)
      && (DestinationText(d) != "" ==> DestinationText(d)[0] != '<')
      && (tail != "" ==> tail[0] == ')' || (DestinationText(d) != "" && IsGap(tail[0])))
  }

  /**
   * The inputs the scanner reads as CommonMark does. Outside parentheses every plain character of the wider
   * whitespace class stands behind an unpaired backslash, and no unpaired backslash stands before the whitespace
   * that ends the destination.
   */
  predicate Readable(b: Nested, after: string) {
    match b
    case Empty => true
    case Plain(c, rest) =>
      if c != '\\' then !IsSpace(c) && Readable(rest, after)
      else if rest.Empty? then after == ""
      else rest.Plain? ==> Readable(rest.rest, after)
    case Escaped(_, rest) => Readable(rest, after)
    case Group(_, rest) => Readable(rest, after)
  }

  predicate ReadsRight(d: Destination, tail: string) {
    d.Angle? || Readable(d.text, tail)
  }

  /** The same text in the scanner's terms, where a backslash takes any character with it. */
  function Recode(b: Nested): Nested {
    match b
    case Empty => Empty
    case Plain(c, rest) =>
      if c == '\\' && rest.Plain? then Escaped(rest.c, Recode(rest.rest)) else Plain(c, Recode(rest))
    case Escaped(c, rest) => Escaped(c, Recode(rest))
    case Group(inner, rest) => Group(Recode(inner), Recode(rest))
  }

  lemma {:induction false} RecodeFits(b: Nested, open: char, close: char, after: string)
    requires Written(b, open, close, after) && Punctuated(after) && IsPunctuation(open) && IsPunctuation(close)
    ensures Show(Recode(b), open, close) == Show(b, open, close) && Fits(Recode(b), open, close)
    decreases b
  {
    match b {
      case Empty =>
      case Plain(c, rest) =>
        if c == '\\' {
          BackslashNext(rest, open, close, after);
          RecodeFits(rest.rest, open, close, after);
        } else {
          RecodeFits(rest, open, close, after);
        }
      case Escaped(_, rest) => RecodeFits(rest, open, close, after);
      case Group(inner, rest) =>
        RecodeFits(inner, open, close, [close]);
        RecodeFits(rest, open, close, after);
    }
  }

  /** Behind an unpaired backslash stands a plain character that is neither punctuation nor a backslash. */
  lemma BackslashNext(rest: Nested, open: char, close: char, after: string)
    requires !Punctuated(Show(rest, open, close) + after) && IsPunctuation(open)
    ensures rest.Plain? || (rest.Empty? && !Punctuated(after))
    ensures rest.Plain? ==> !IsPunctuation(rest.c)
  {
    var s := Show(rest, open, close) + after;
    assert rest.Empty? ==> s == after;
    assert rest.Plain? ==> s[0] == rest.c;
  }

  lemma {:induction false} AnglesAreFlat(b: Nested)
    requires InAngles(b)
    ensures Flat(Recode(b))
    decreases b
  {
    match b
    case Empty =>
    case Plain(c, rest) => AnglesAreFlat(if c == '\\' && rest.Plain? then rest.rest else rest);
    case Escaped(_, rest) => AnglesAreFlat(rest);
  }

  lemma {:induction false} SkipGap(s: string, i: nat, gap: string)
    requires AllGap(gap) && At(s, i, gap)
    ensures Skip(s, i) == Skip(s, i + |gap|)
    decreases |gap|
  {
    hide IsSpace, IsGap;
    if gap != "" {
      assert gap == [gap[0]] + gap[1..];
      AtFirst(s, i, gap[1..], gap[0]);
      GapIsSpace(gap[0]);
      SkipGap(s, i + 1, gap[1..]);
    }
  }

  lemma GapIsSpace(c: char)
    ensures IsGap(c) ==> IsSpace(c)
  {
  }

  lemma AtEnd(before: string, t: string)
    ensures At(before + t, |before|, t)
  {
  }

  lemma SpaceIsPlain(c: char)
    ensures IsSpace(c) ==> !IsPunctuation(c)
  {
  }

  /** Inside parentheses the scanner passes over any text an author may write there. */
  lemma InnerPasses(s: string, i: nat, b: Nested, depth: nat)
    requires depth > 0 && Written(b, '(', ')', ")") && At(s, i, Show(b, '(', ')'))
    ensures BareEnd(s, i, depth) == BareEnd(s, i + |Show(b, '(', ')')|, depth)
  {
    hide Show, Written, At, Fits;
    RecodeFits(b, '(', ')', ")");
    BarePasses(s, i, Recode(b), depth);
  }

  /** The end found is the end of the destination exactly when the scanner reads it as CommonMark does. */
  lemma {:induction false} BareScan(s: string, i: nat, b: Nested, after: string)
    requires Written(b, '(', ')', after) && (after != "" ==> after[0] == ')' || IsGap(after[0]))
    requires At(s, i, Show(b, '(', ')')) && At(s, i + |Show(b, '(', ')')|, after)
    requires |s| == i + |Show(b, '(', ')')| + |after|
    ensures BareEnd(s, i, 0) == i + |Show(b, '(', ')')| <==> Readable(b, after)
    decreases b
  {
    hide At, Show, IsSpace, IsGap;
    ShowLength(b, '(', ')');
    match b {
      case Empty => ScanStops(s, i, after);
      case Plain(c, rest) =>
        AtPlain(s, i, c, rest, '(', ')');
        if c == '\\' {
          BackslashNext(rest, '(', ')', after);
          ShowLength(rest, '(', ')');
          if rest.Empty? {
            LooseBackslash(s, i, after);
          } else {
            AtPlain(s, i + 1, rest.c, rest.rest, '(', ')');
            BareScan(s, i + 2, rest.rest, after);
          }
        } else if !IsSpace(c) {
          BareScan(s, i + 1, rest, after);
        }
      case Escaped(c, rest) =>
        AtEscaped(s, i, c, rest, '(', ')');
        BareScan(s, i + 2, rest, after);
      case Group(inner, rest) =>
        AtGroup(s, i, inner, rest, '(', ')');
        InnerPasses(s, i + 1, inner, 1);
        BareScan(s, i + 2 + |Show(inner, '(', ')')|, rest, after);
    }
  }

  lemma ScanStops(s: string, i: nat, after: string)
    requires At(s, i, after) && |s| == i + |after| && (after != "" ==> after[0] == ')' || IsGap(after[0]))
    ensures BareEnd(s, i, 0) == i
  {
    hide IsSpace;
    if after != "" {
      assert s[i] == s[i..i + |after|][0];
      GapIsSpace(s[i]);
      SpaceIsPlain(s[i]);
    }
  }

  /** A backslash that pairs with nothing takes the whitespace behind it along. */
  lemma LooseBackslash(s: string, i: nat, after: string)
    requires i < |s| && s[i] == '\\' && |s| == i + 1 + |after|
    ensures BareEnd(s, i, 0) == i + 1 <==> after == ""
  {
  }

  /** From its start on, the destination's own text is found exactly when the scanner reads it right. */
  lemma FoundFrom(s: string, i: nat, d: Destination, tail: string)
    requires At(s, i, DestinationSource(d) + tail) && |s| == i + |DestinationSource(d) + tail|
    requires Authored(d, tail)
    ensures var skip := if d.Angle? then 1 else 0;
            LocateFrom(s, i) == Found(i + skip, i + skip + |DestinationText(d)|) <==> ReadsRight(d, tail)
  {
    hide Show, Written, IsSpace, Readable, Uncontrolled, At;
    AtSplit(s, i, DestinationSource(d), tail);
    if d.Angle? {
      AngleFrom(s, i, d);
    } else {
      BareFirst(s, i, d, tail);
      BareScan(s, i, d.text, tail);
    }
  }

  lemma AngleFrom(s: string, i: nat, d: Destination)
    requires d.Angle? && Written(d.text, '>', '>', ">") && InAngles(d.text) && At(s, i, DestinationSource(d))
    ensures LocateFrom(s, i) == Found(i + 1, i + 1 + |DestinationText(d)|)
  {
    hide Show, Written, InAngles, Fits, Flat, At;
    var t := DestinationText(d);
    AtFirst(s, i, t + ['>'], '<');
    AtSplit(s, i + 1, t, ['>']);
    assert ['>'] + "" == ['>'];
    AtFirst(s, i + 1 + |t|, "", '>');
    RecodeFits(d.text, '>', '>', ">");
    AnglesAreFlat(d.text);
    AnglePasses(s, i + 1, Recode(d.text));
  }

  lemma BareFirst(s: string, i: nat, d: Destination, tail: string)
    requires d.Bare? && At(s, i, DestinationSource(d) + tail) && |s| == i + |DestinationSource(d) + tail|
    requires Authored(d, tail)
    ensures i < |s| ==> s[i] != '<'
  {
    hide Show, Written, Uncontrolled;
    var t := DestinationText(d) + tail;
    if i < |s| {
      assert s[i] == s[i..i + |t|][0] == t[0];
    }
  }

  /** Where the text of a printed destination starts. */
  function TextStart(kind: Kind, caption: Nested, gap: string, d: Destination): nat {
    |Head(kind, caption)| + |gap| + (if d.Angle? then 1 else 0)
  }

  lemma LabelOfPrint(kind: Kind, caption: Nested, rest: string)
    requires Written(caption, '[', ']', "]")
    ensures LabelClose(Head(kind, caption) + rest) == |Head(kind, caption)| - 2
  {
    hide Show, Fits, LabelClose, At, Written;
    var raw := Head(kind, caption) + rest;
    var bracketed := ['['] + (Show(caption, '[', ']') + [']']);
    assert raw == Opening(kind) + (bracketed + ([Separator(kind)] + rest));
    AtEnd(Opening(kind), bracketed + ([Separator(kind)] + rest));
    AtSplit(raw, |Opening(kind)|, bracketed, [Separator(kind)] + rest);
    RecodeFits(caption, '[', ']', "]");
    assert LabelSpan(raw, |Opening(kind)|, Recode(caption));
    LabelFound(raw, |Opening(kind)|, Recode(caption));
  }

  /**
   * For every node with a bracket-balanced label and a valid destination the scanner inverts printing, finding exactly
   * the text of the destination, if and only if no block quote marker stands before the destination and it is one the
   * scanner reads right.
   */
  lemma ScanInvertsPrint(kind: Kind, caption: Nested, gap: string, d: Destination, tail: string)
    requires Written(caption, '[', ']', "]") && Separates(gap) && Authored(d, tail)
    ensures var start := TextStart(kind, caption, gap, d);
            Locate(PrintNode(kind, caption, gap, d, tail), kind) == Found(start, start + |DestinationText(d)|)
            <==> AllGap(gap) && ReadsRight(d, tail)
  {
    hide Show, Written, LocateFrom, Head, Authored, DestinationSource, DestinationText, ReadsRight, AllGap, Separates;
    var head, rest := Head(kind, caption), gap + (DestinationSource(d) + tail);
    var raw := head + rest;
    LabelOfPrint(kind, caption, rest);
    HeadEnds(kind, caption);
    assert raw[|head| - 1] == head[|head| - 1];
    AtEnd(head, rest);
    if AllGap(gap) {
      TextAfterGap(raw, |head|, gap, d, tail);
    } else {
      AtSplit(raw, |head|, gap, DestinationSource(d) + tail);
      MarkerStops(raw, |head|, gap);
      StartsThere(raw, Skip(raw, |head|));
    }
  }

  /** The first block quote marker ends the whitespace, and the range found starts with it. */
  lemma {:induction false} MarkerStops(raw: string, i: nat, gap: string)
    requires Separates(gap) && !AllGap(gap) && At(raw, i, gap)
    ensures i <= Skip(raw, i) < i + |gap|
    ensures LocateFrom(raw, Skip(raw, i)).Found? && LocateFrom(raw, Skip(raw, i)).start == Skip(raw, i)
    decreases |gap|
  {
    hide IsSpace, BareEnd, AngleEnd;
    assert gap == [gap[0]] + gap[1..];
    AtFirst(raw, i, gap[1..], gap[0]);
    GapIsSpace(gap[0]);
    SpaceIsPlain(gap[0]);
    if IsGap(gap[0]) {
      var c :| c in gap && !IsGap(c);
      MarkerStops(raw, i + 1, gap[1..]);
    }
  }

  lemma HeadEnds(kind: Kind, caption: Nested)
    ensures |Head(kind, caption)| >= 2 && Head(kind, caption)[|Head(kind, caption)| - 1] == Separator(kind)
  {
    hide Show;
  }

  lemma TextAfterGap(raw: string, i: nat, gap: string, d: Destination, tail: string)
    requires AllGap(gap) && Authored(d, tail)
    requires At(raw, i, gap + (DestinationSource(d) + tail)) && |raw| == i + |gap + (DestinationSource(d) + tail)|
    ensures var start := i + |gap| + (if d.Angle? then 1 else 0);
            LocateFrom(raw, Skip(raw, i)) == Found(start, start + |DestinationText(d)|) <==> ReadsRight(d, tail)
  {
    hide Show, Written, LocateFrom, DestinationText, DestinationSource, ReadsRight, Authored, IsSpace, At, AllGap;
    var j := i + |gap|;
    AtSplit(raw, i, gap, DestinationSource(d) + tail);
    SkipGap(raw, i, gap);
    if j < |raw| && IsSpace(raw[j]) {
      SpaceFirst(raw, j, d, tail);
      StartsThere(raw, Skip(raw, j));
    } else {
      FoundFrom(raw, j, d, tail);
    }
  }

  lemma StartsThere(raw: string, start: nat)
    ensures LocateFrom(raw, start).Found? ==> LocateFrom(raw, start).start >= start
  {
  }

  /** Whitespace where the destination starts can only be a bare destination's own, and it is skipped. */
  lemma SpaceFirst(raw: string, j: nat, d: Destination, tail: string)
    requires Authored(d, tail) && j < |raw| && IsSpace(raw[j])
    requires At(raw, j, DestinationSource(d) + tail) && |raw| == j + |DestinationSource(d) + tail|
    ensures d.Bare? && !ReadsRight(d, tail) && Skip(raw, j) > j
  {
    hide IsSpace, Written, Uncontrolled;
    SpaceIsPlain(raw[j]);
    var t := DestinationSource(d) + tail;
    assert raw[j] == raw[j..j + |t|][0] == t[0];
  }

  lemma PrintSplits(kind: Kind, caption: Nested, gap: string, d: Destination, tail: string)
    ensures var raw, start, end :=
              PrintNode(kind, caption, gap, d, tail), TextStart(kind, caption, gap, d),
              TextStart(kind, caption, gap, d) + |DestinationText(d)|;
            && end <= |raw| && raw[start..end] == DestinationText(d)
            && raw[..start] == Head(kind, caption) + gap + (if d.Angle? then "<" else "")
            && raw[end..] == (if d.Angle? then ">" else "") + tail
  {
    hide Head, DestinationText;
    var before := Head(kind, caption) + gap + (if d.Angle? then "<" else "");
    var after := (if d.Angle? then ">" else "") + tail;
    assert PrintNode(kind, caption, gap, d, tail) == before + DestinationText(d) + after;
  }

  /**
   * The range found in a whole document is the destination's exactly under that condition. Replacing it then replaces
   * the destination and nothing else, and the new range is right if and only if the new destination is read right.
   */
  lemma SpliceReplaces(before: string, after: string, kind: Kind, caption: Nested, gap: string, d: Destination,
                       tail: string, d': Destination)
    requires Written(caption, '[', ']', "]") && Separates(gap)
    requires Authored(d, tail) && Authored(d', tail) && d.Angle? == d'.Angle?
    ensures var source := before + PrintNode(kind, caption, gap, d, tail) + after;
            var range := Locate(PrintNode(kind, caption, gap, d, tail), kind);
            var own := TextStart(kind, caption, gap, d);
            && (range == Found(own, own + |DestinationText(d)|) <==> AllGap(gap) && ReadsRight(d, tail))
            && (AllGap(gap) && ReadsRight(d, tail) ==>
                  var start, end := |before| + range.start, |before| + range.end;
                  && start <= end <= |source| && source[start..end] == DestinationText(d)
                  && source[..start] + DestinationText(d') + source[end..]
                     == before + PrintNode(kind, caption, gap, d', tail) + after
                  && var again := Locate(PrintNode(kind, caption, gap, d', tail), kind);
                  again == Found(range.start, range.start + |DestinationText(d')|) <==> ReadsRight(d', tail))
  {
    hide Show, Written, Locate, Authored, PrintNode, DestinationText, AllGap, Separates, Head, ReadsRight;
    ScanInvertsPrint(kind, caption, gap, d, tail);
    if AllGap(gap) && ReadsRight(d, tail) {
      ScanInvertsPrint(kind, caption, gap, d', tail);
      PrintSplits(kind, caption, gap, d, tail);
      PrintReplaced(kind, caption, gap, d, tail, d');
      var raw, start := PrintNode(kind, caption, gap, d, tail), TextStart(kind, caption, gap, d);
      SpliceInside(before, raw, after, start, start + |DestinationText(d)|, DestinationText(d'));
    }
  }

  lemma PrintReplaced(kind: Kind, caption: Nested, gap: string, d: Destination, tail: string, d': Destination)
    requires d.Angle? == d'.Angle?
    ensures var raw, start, end :=
              PrintNode(kind, caption, gap, d, tail), TextStart(kind, caption, gap, d),
              TextStart(kind, caption, gap, d) + |DestinationText(d)|;
            && start <= end <= |raw|
            && raw[..start] + DestinationText(d') + raw[end..] == PrintNode(kind, caption, gap, d', tail)
  {
    hide Head, PrintNode, DestinationText;
    PrintSplits(kind, caption, gap, d, tail);
    PrintSplits(kind, caption, gap, d', tail);
    var raw', start' := PrintNode(kind, caption, gap, d', tail), TextStart(kind, caption, gap, d');
    assert raw'
        == raw'[..start'] + raw'[start'..start' + |DestinationText(d')|] + raw'[start' + |DestinationText(d')|..];
  }

  lemma SpliceInside(before: string, raw: string, after: string, start: nat, end: nat, text: string)
    requires start <= end <= |raw|
    ensures var source := before + raw + after;
            && source[|before| + start..|before| + end] == raw[start..end]
            && source[..|before| + start] + text + source[|before| + end..]
                == before + (raw[..start] + text + raw[end..]) + after
  {
    var source := before + raw + after;
    assert source[..|before| + start] == before + raw[..start];
    assert source[|before| + end..] == raw[end..] + after;
  }

  // ----- inputs the scanner reads differently -----

  /** U+00A0, which separates nothing in CommonMark but belongs to the scanner's whitespace class. */
  const NO_BREAK_SPACE := '\U{A0}'

  const CAPTION := Plain('a', Empty)

  /** A link with that caption is scanned from just behind the parenthesis. */
  lemma LocateCaptioned(d: Destination, tail: string)
    ensures var raw := "[a](" + (DestinationSource(d) + tail);
            PrintNode(Link, CAPTION, "", d, tail) == raw && Locate(raw, Link) == LocateFrom(raw, Skip(raw, 4))
  {
    hide DestinationSource, LocateFrom, LabelClose;
    var rest := DestinationSource(d) + tail;
    assert Show(CAPTION, '[', ']') == "a";
    assert Head(Link, CAPTION) == "[a](";
    assert "" + rest == rest;
    LabelOfPrint(Link, CAPTION, rest);
  }

  /** `[a](x\ "t")`: the destination is `x` and a backslash, but the range found runs to the closing parenthesis. */
  lemma BackslashBeforeSpace()
    ensures var d, tail := Bare(Plain('x', Plain('\\', Empty))), " \"t\")";
            && Authored(d, tail) && DestinationText(d) == "x\\"
            && Locate(PrintNode(Link, CAPTION, "", d, tail), Link) == Found(4, 10)
  {
    hide LocateFrom, Locate, PrintNode, Skip;
    var d, tail := Bare(Plain('x', Plain('\\', Empty))), " \"t\")";
    assert DestinationText(d) == "x\\";
    LocateCaptioned(d, tail);
    assert "[a](" + ("x\\" + tail) == "[a](x\\ \"t\")";
    BackslashScan("[a](x\\ \"t\")");
  }

  lemma BackslashScan(raw: string)
    requires raw == "[a](x\\ \"t\")"
    ensures LocateFrom(raw, Skip(raw, 4)) == Found(4, 10)
  {
    assert BareEnd(raw, 4, 0) == BareEnd(raw, 5, 0) == BareEnd(raw, 7, 0);
    assert BareEnd(raw, 7, 0) == BareEnd(raw, 8, 0) == BareEnd(raw, 9, 0) == 10;
  }

  /** A no-break space inside a bare destination ends the range found before its time. */
  lemma NoBreakSpaceInside()
    ensures var d := Bare(Plain('x', Plain(NO_BREAK_SPACE, Plain('y', Empty))));
            && Authored(d, ")") && DestinationText(d) == ['x', NO_BREAK_SPACE, 'y']
            && Locate(PrintNode(Link, CAPTION, "", d, ")"), Link) == Found(4, 5)
  {
    hide Locate, PrintNode;
    var d := Bare(Plain('x', Plain(NO_BREAK_SPACE, Plain('y', Empty))));
    var raw := "[a](" + (['x', NO_BREAK_SPACE, 'y'] + ")");
    assert DestinationText(d) == ['x', NO_BREAK_SPACE, 'y'];
    LocateCaptioned(d, ")");
    assert BareEnd(raw, 4, 0) == BareEnd(raw, 5, 0) == 5;
  }

  /** A no-break space at its start is skipped, although it belongs to the destination. */
  lemma NoBreakSpaceFirst()
    ensures var d := Bare(Plain(NO_BREAK_SPACE, Plain('x', Empty)));
            && Authored(d, ")") && DestinationText(d) == [NO_BREAK_SPACE, 'x']
            && Locate(PrintNode(Link, CAPTION, "", d, ")"), Link) == Found(5, 6)
  {
    hide Locate, PrintNode;
    var d := Bare(Plain(NO_BREAK_SPACE, Plain('x', Empty)));
    var raw := "[a](" + ([NO_BREAK_SPACE, 'x'] + ")");
    assert DestinationText(d) == [NO_BREAK_SPACE, 'x'];
    LocateCaptioned(d, ")");
    assert Skip(raw, 4) == Skip(raw, 5) == 5;
    assert BareEnd(raw, 5, 0) == BareEnd(raw, 6, 0) == 6;
  }

  /** A destination behind the marker of a quoted line. */
  const QUOTED := Bare(Plain('/', Plain('u', Empty)))

  const MARKER := ['\n', '>', ' ']

  lemma QuotedIsValid(tail: string)
    requires tail == "" || tail == ")"
    ensures Authored(QUOTED, tail) && ReadsRight(QUOTED, tail) && DestinationSource(QUOTED) == "/u"
    ensures Separates(MARKER) && !AllGap(MARKER)
  {
    assert DestinationText(QUOTED) == "/u";
    assert Readable(Plain('u', Empty), tail);
    assert '>' in MARKER && !IsGap('>');
  }

  lemma MarkerScan(raw: string)
    requires |raw| >= 7 && raw[4..7] == MARKER
    ensures LocateFrom(raw, Skip(raw, 4)) == Found(5, 6)
  {
    assert raw[4] == MARKER[0] && raw[5] == MARKER[1] && raw[6] == MARKER[2];
    assert Skip(raw, 4) == Skip(raw, 5) == 5;
    assert BareEnd(raw, 5, 0) == BareEnd(raw, 6, 0) == 6;
  }

  lemma QuotedPrint(kind: Kind, tail: string)
    requires kind.Link? || kind.Definition?
    ensures var raw := "[a]" + [Separator(kind)] + MARKER + "/u" + tail;
            PrintNode(kind, CAPTION, MARKER, QUOTED, tail) == raw && LabelClose(raw) == 2 && raw[4..7] == MARKER
  {
    hide LabelClose, DestinationSource;
    QuotedIsValid("");
    var raw := "[a]" + [Separator(kind)] + MARKER + "/u" + tail;
    assert Show(CAPTION, '[', ']') == "a";
    assert Head(kind, CAPTION) == "[a]" + [Separator(kind)];
    assert raw == Head(kind, CAPTION) + (MARKER + ("/u" + tail));
    LabelOfPrint(kind, CAPTION, MARKER + ("/u" + tail));
  }

  /** `[a](\n> /u)`, from inside a block quote: the marker is taken for the destination of a link. */
  lemma MarkerTaken()
    ensures Authored(QUOTED, ")") && ReadsRight(QUOTED, ")") && Separates(MARKER) && !AllGap(MARKER)
    ensures PrintNode(Link, CAPTION, MARKER, QUOTED, ")") == "[a](\n> /u)" && Locate("[a](\n> /u)", Link) == Found(5, 6)
  {
    hide LabelClose, PrintNode, LocateFrom, Skip;
    QuotedIsValid(")");
    QuotedPrint(Link, ")");
    var raw := "[a](\n> /u)";
    assert raw == "[a]" + ['('] + MARKER + "/u" + ")";
    MarkerScan(raw);
  }

  /** `[a]:\n> /u`, from there too: so is that of a definition. */
  lemma MarkerDefined()
    ensures Authored(QUOTED, "") && ReadsRight(QUOTED, "")
    ensures PrintNode(Definition, CAPTION, MARKER, QUOTED, "") == "[a]:\n> /u"
    ensures Locate("[a]:\n> /u", Definition) == Found(5, 6)
  {
    hide LabelClose, PrintNode, LocateFrom, Skip;
    QuotedIsValid("");
    QuotedPrint(Definition, "");
    var raw := "[a]:\n> /u";
    assert raw == "[a]" + [':'] + MARKER + "/u" + "";
    assert IndexOf(raw, ':', 3) == 3;
    MarkerScan(raw);
  }

  /**
   * A label whose code span holds a bracket: the label ends at the last bracket, the scanner's at the one in the span.
   * It is no bracket-balanced label, which by `LabelExactly` is all the scanner finds.
   */
  lemma CodeSpanInLabel()
    ensures LabelClose("[`]`](x)") == 2 && Locate("[`]`](x)", Link) == NoInline
  {
    var raw := "[`]`](x)";
    assert LabelScan(raw, 1, 1) == LabelScan(raw, 2, 1) == 2;
    assert raw[3] == '`';
  }
}
