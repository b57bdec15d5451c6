/** String splitting and joining with JavaScript's semantics: String.prototype.split
    on a one-character separator and Array.prototype.join. */
module Text {

  /** Number of occurrences of c in s. */
  function Occurrences(s: string, c: char): nat
  {
    if |s| == 0 then 0 else (if s[0] == c then 1 else 0) + Occurrences(s[1..], c)
  }

  /** s.split(sep): the pieces between consecutive separators, always at least one
      (the empty string splits into [""]). */
  function Split(s: string, sep: char): (parts: seq<string>)
    ensures |parts| == Occurrences(s, sep) + 1
    ensures forall i :: 0 <= i < |parts| ==> sep !in parts[i]
    ensures forall i, c :: 0 <= i < |parts| && c in parts[i] ==> c in s
    decreases |s|
  {
    if |s| == 0 then [""]
    else
      var rest := Split(s[1..], sep);
      assert forall c :: c in s[1..] ==> c in s;
      if s[0] == sep then [""] + rest
      else [[s[0]] + rest[0]] + rest[1..]
  }

  /** parts.join(sep). */
  function Join(parts: seq<string>, sep: char): string
  {
    if |parts| == 0 then ""
    else if |parts| == 1 then parts[0]
    else parts[0] + [sep] + Join(parts[1..], sep)
  }

  /** parts.join(''): the pieces concatenated without a separator. */
  function Concat(parts: seq<string>): string
  {
    if |parts| == 0 then "" else parts[0] + Concat(parts[1..])
  }

  lemma ConcatThree(a: string, b: string, c: string)
    ensures Concat([a, b, c]) == a + b + c
  {
    assert [a, b, c][1..] == [b, c];
    assert [b, c][1..] == [c];
    assert [c][1..] == [];
    assert Concat([c]) == c;
    assert Concat([b, c]) == b + c;
  }

  /** parts.reverse(). */
  function Reverse<T>(parts: seq<T>): (r: seq<T>)
    ensures |r| == |parts|
    ensures forall i :: 0 <= i < |parts| ==> r[i] == parts[|parts| - 1 - i]
  {
    if |parts| == 0 then [] else Reverse(parts[1..]) + [parts[0]]
  }

  /** Joining the pieces of a split gives back the original string. */
  lemma {:induction false} JoinSplit(s: string, sep: char)
    ensures Join(Split(s, sep), sep) == s
    decreases |s|
  {
    if |s| > 0 {
      var rest := Split(s[1..], sep);
      JoinSplit(s[1..], sep);
      if s[0] == sep {
        assert Split(s, sep) == [""] + rest;
      } else {
        var parts := Split(s, sep);
        assert parts == [[s[0]] + rest[0]] + rest[1..];
        if |rest| == 1 {
          assert Join(parts, sep) == [s[0]] + rest[0];
        } else {
          assert Join(rest, sep) == rest[0] + [sep] + Join(rest[1..], sep);
          assert parts[1..] == rest[1..];
        }
      }
    }
  }

  /** Splitting a separator-free prefix followed by a separator peels off that prefix. */
  lemma {:induction false} SplitAfterPiece(a: string, b: string, sep: char)
    requires sep !in a
    ensures Split(a + [sep] + b, sep) == [a] + Split(b, sep)
    decreases |a|
  {
    if |a| > 0 {
      var s := a + [sep] + b;
      SplitAfterPiece(a[1..], b, sep);
      assert s[1..] == a[1..] + [sep] + b;
      assert s[0] == a[0] && a[0] != sep;
      var rest := Split(s[1..], sep);
      assert Split(s, sep) == [[a[0]] + rest[0]] + rest[1..];
      assert [a[0]] + a[1..] == a;
    } else {
      assert a + [sep] + b == [sep] + b;
    }
  }

  /** A string without the separator splits into itself alone. */
  lemma {:induction false} SplitWithoutSeparator(a: string, sep: char)
    requires sep !in a
    ensures Split(a, sep) == [a]
    decreases |a|
  {
    if |a| > 0 {
      SplitWithoutSeparator(a[1..], sep);
      assert [a[0]] + a[1..] == a;
    }
  }

  /** Splitting a join of separator-free pieces gives back the pieces. */
  lemma {:induction false} SplitJoin(parts: seq<string>, sep: char)
    requires |parts| >= 1
    requires forall i :: 0 <= i < |parts| ==> sep !in parts[i]
    ensures Split(Join(parts, sep), sep) == parts
  {
    if |parts| == 1 {
      SplitWithoutSeparator(parts[0], sep);
    } else {
      SplitJoin(parts[1..], sep);
      SplitAfterPiece(parts[0], Join(parts[1..], sep), sep);
      assert [parts[0]] + parts[1..] == parts;
    }
  }

  /** The three pieces d, m, y joined by '/'. */
  function Slashed(d: string, m: string, y: string): string
  {
    d + "/" + m + "/" + y
  }

  lemma SplitSlashed(d: string, m: string, y: string)
    requires '/' !in d && '/' !in m && '/' !in y
    ensures Split(Slashed(d, m, y), '/') == [d, m, y]
  {
    assert [d, m, y][1..] == [m, y];
    assert [m, y][1..] == [y];
    assert Join([m, y], '/') == m + "/" + y;
    assert Join([d, m, y], '/') == d + "/" + (m + "/" + y);
    assert Join([d, m, y], '/') == Slashed(d, m, y);
    SplitJoin([d, m, y], '/');
  }
}
