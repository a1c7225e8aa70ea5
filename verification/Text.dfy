/** Splitting, joining and searching sequences, and what counts as whitespace. */
module Text {

  /** The characters the `\s` class matches. */
  predicate IsSpace(c: char) {
    var code := c as int;
    || 9 <= code <= 13 || code == 32 || code == 0xA0 || code == 0x1680 || 0x2000 <= code <= 0x200A
    || code == 0x2028 || code == 0x2029 || code == 0x202F || code == 0x205F || code == 0x3000 || code == 0xFEFF
  }

  /** The white space and line terminators of ECMAScript, code point by code point. */
  lemma SpacesExactly(c: char)
    ensures IsSpace(c) <==>
            c as int in {9, 10, 11, 12, 13, 32, 160, 5760, 8192, 8193, 8194, 8195, 8196, 8197, 8198, 8199, 8200, 8201,
                         8202, 8232, 8233, 8239, 8287, 12288, 65279}
  {
  }

  /** The first position from `from` on that holds `x`; -1 when there is none. */
  function IndexOf<T(==)>(s: seq<T>, x: T, from: nat): (r: int)
    ensures r == -1 || (from <= r < |s| && s[r] == x && forall k :: from <= k < r ==> s[k] != x)
    ensures r == -1 ==> forall k :: from <= k < |s| ==> s[k] != x
    decreases |s| - from
  {
    if from >= |s| then -1 else if s[from] == x then from else IndexOf(s, x, from + 1)
  }

  /** `text.split(sep)` for a one-element separator: always at least one part. */
  function Split<T(==)>(s: seq<T>, sep: T): (parts: seq<seq<T>>)
    ensures |parts| > 0
    ensures forall p :: p in parts ==> sep !in p
  {
    if s == [] then [[]]
    else
      var rest := Split(s[1..], sep);
      if s[0] == sep then [[]] + rest else [[s[0]] + rest[0]] + rest[1..]
  }

  function Join<T>(parts: seq<seq<T>>, sep: T): seq<T>
    requires parts != []
  {
    if |parts| == 1 then parts[0] else parts[0] + [sep] + Join(parts[1..], sep)
  }

  /** Joining what was split gives the text back. */
  lemma {:induction false} JoinSplit<T>(s: seq<T>, sep: T)
    ensures Join(Split(s, sep), sep) == s
  {
    if s == [] {
    } else {
      JoinSplit(s[1..], sep);
      var rest := Split(s[1..], sep);
      if s[0] == sep {
        assert ([[]] + rest)[1..] == rest;
        assert s == [s[0]] + s[1..];
      } else {
        var parts := [[s[0]] + rest[0]] + rest[1..];
        assert parts[1..] == rest[1..];
        assert s == [s[0]] + s[1..];
      }
    }
  }

  /** Splitting what was joined gives the parts back, when none of them holds the separator. */
  lemma {:induction false} SplitJoin<T>(parts: seq<seq<T>>, sep: T)
    requires parts != [] && forall p :: p in parts ==> sep !in p
    ensures Split(Join(parts, sep), sep) == parts
    decreases |parts|, |parts[0]|
  {
    var s := Join(parts, sep);
    if parts[0] == [] {
      if |parts| > 1 {
        assert s == [sep] + Join(parts[1..], sep);
        SplitJoin(parts[1..], sep);
        assert s[1..] == Join(parts[1..], sep);
      }
    } else {
      var c, shorter := parts[0][0], [parts[0][1..]] + parts[1..];
      assert c in parts[0];
      assert forall p :: p in shorter ==> p == parts[0][1..] || p in parts;
      assert forall x :: x in parts[0][1..] ==> x in parts[0];
      assert shorter[1..] == parts[1..];
      assert Join(shorter, sep) == s[1..];
      SplitJoin(shorter, sep);
      assert s[0] == c;
      assert [c] + parts[0][1..] == parts[0];
      assert parts == [parts[0]] + parts[1..];
    }
  }
}
