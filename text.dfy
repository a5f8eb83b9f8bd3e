/**
 * The string operations the line parser relies on: whitespace stripping
 * (`str.strip()` with no argument), splitting on a separator
 * (`str.split(sep)`) and splitting at the first separator only
 * (`str.split(sep, 1)`).
 */
module Text {

  /** A character that `str.isspace()` accepts: ASCII whitespace, the
      information separators 0x1C-0x1F, and the Unicode space and
      line/paragraph separators. */
  predicate IsSpace(c: char) {
    var n := c as int;
    || n == 0x20 || 0x09 <= n <= 0x0D || 0x1C <= n <= 0x1F
    || n == 0x85 || n == 0xA0 || n == 0x1680 || 0x2000 <= n <= 0x200A
    || n == 0x2028 || n == 0x2029 || n == 0x202F || n == 0x205F || n == 0x3000
  }

  predicate AllSpace(s: string) {
    forall i :: 0 <= i < |s| ==> IsSpace(s[i])
  }

  /** Drops the leading whitespace. */
  function StripLeft(s: string): (r: string)
    ensures |r| <= |s|
  {
    if s != [] && IsSpace(s[0]) then StripLeft(s[1..]) else s
  }

  /** Drops the trailing whitespace. */
  function StripRight(s: string): (r: string)
    ensures |r| <= |s|
  {
    if s != [] && IsSpace(s[|s| - 1]) then StripRight(s[..|s| - 1]) else s
  }

  /** `str.strip()`: whitespace removed from both ends. */
  function Strip(s: string): (r: string)
    ensures |r| <= |s|
  {
    StripRight(StripLeft(s))
  }

  /** What `StripLeft` drops is all whitespace and is a prefix; what it
      keeps does not start with whitespace. */
  lemma {:induction false} StripLeftSpec(s: string)
    ensures var r := StripLeft(s);
      && r == s[|s| - |r|..] && AllSpace(s[..|s| - |r|])
      && (r == [] || !IsSpace(r[0]))
  {
    if s != [] && IsSpace(s[0]) {
      StripLeftSpec(s[1..]);
      var r := StripLeft(s);
      assert s[..|s| - |r|] == [s[0]] + s[1..][..|s| - 1 - |r|];
    }
  }

  /** What `StripRight` drops is all whitespace and is a suffix; what it
      keeps does not end with whitespace. */
  lemma {:induction false} StripRightSpec(s: string)
    ensures var r := StripRight(s);
      && r == s[..|r|] && AllSpace(s[|r|..])
      && (r == [] || !IsSpace(r[|r| - 1]))
  {
    if s != [] && IsSpace(s[|s| - 1]) {
      StripRightSpec(s[..|s| - 1]);
      var r := StripRight(s);
      assert s[|r|..] == s[..|s| - 1][|r|..] + [s[|s| - 1]];
    }
  }

  /** `Strip(s)` is the slice of `s` between two all-whitespace ends; it is
      empty exactly when `s` is all whitespace, and otherwise it neither
      starts nor ends with whitespace. */
  lemma StripSpec(s: string)
    ensures var r := Strip(s);
      && (exists i, j :: 0 <= i <= j <= |s| && r == s[i..j] && AllSpace(s[..i]) && AllSpace(s[j..]))
      && (r == [] <==> AllSpace(s))
      && (r != [] ==> !IsSpace(r[0]) && !IsSpace(r[|r| - 1]))
  {
    var l := StripLeft(s);
    var r := StripRight(l);
    StripLeftSpec(s);
    StripRightSpec(l);
    var i := |s| - |l|;
    var j := i + |r|;
    assert r == s[i..j];
    assert s[j..] == l[|r|..];
    assert AllSpace(s) ==> l == [];
    assert r == [] ==> AllSpace(s) by {
      if r == [] {
        assert s == s[..i] + l;
      }
    }
    assert r != [] ==> r[0] == l[0];
  }

  /** Stripping twice is stripping once. */
  lemma StripIdempotent(s: string)
    ensures Strip(Strip(s)) == Strip(s)
  {
    var r := Strip(s);
    StripSpec(s);
    if r != [] {
      assert StripLeft(r) == r;
      assert StripRight(r) == r;
    }
  }

  /** Position of the first occurrence of `c` in `s`. */
  function IndexOf(s: string, c: char): (i: nat)
    requires c in s
    ensures i < |s| && s[i] == c && c !in s[..i]
  {
    if s[0] == c then 0
    else
      var j := IndexOf(s[1..], c);
      assert s[..1 + j] == [s[0]] + s[1..][..j];
      1 + j
  }

  /** The first occurrence of `c` in `a + [c] + b` is just after `a`,
      provided `a` has none. */
  lemma IndexOfAfterPrefix(a: string, c: char, b: string)
    requires c !in a
    ensures IndexOf(a + [c] + b, c) == |a|
  {
    var s := a + [c] + b;
    var i := IndexOf(s, c);
    assert s[..|a|] == a;
    assert s[|a|] == c;
    assert i <= |a| ==> s[..i] == a[..i];
  }

  /** `str.split(c, 1)` on a string that holds `c`: the text before the
      first `c` and everything after it. */
  function SplitAtFirst(s: string, c: char): (halves: (string, string))
    requires c in s
    ensures s == halves.0 + [c] + halves.1
    ensures c !in halves.0
  {
    var i := IndexOf(s, c);
    assert s == s[..i] + [c] + s[i + 1..];
    (s[..i], s[i + 1..])
  }

  /** Splitting at the first `c` recovers the pieces it was joined from. */
  lemma SplitAtFirstOf(a: string, c: char, b: string)
    requires c !in a
    ensures SplitAtFirst(a + [c] + b, c) == (a, b)
  {
    IndexOfAfterPrefix(a, c, b);
    var s := a + [c] + b;
    assert s[..|a|] == a;
    assert s[|a| + 1..] == b;
  }

  /** The pieces of `parts` with a `c` between each two. */
  function Join(parts: seq<string>, c: char): string {
    if parts == [] then []
    else if |parts| == 1 then parts[0]
    else parts[0] + [c] + Join(parts[1..], c)
  }

  /** `str.split(c)`: the pieces of `s` between occurrences of `c`, in
      order; there is always at least one. */
  function Split(s: string, c: char): (parts: seq<string>)
    ensures parts != []
    decreases |s|
  {
    if c in s then
      var (head, tail) := SplitAtFirst(s, c);
      [head] + Split(tail, c)
    else
      [s]
  }

  /** The pieces hold no `c`, and joining them with `c` gives back `s`. */
  lemma {:induction false} SplitSpec(s: string, c: char)
    ensures forall k :: 0 <= k < |Split(s, c)| ==> c !in Split(s, c)[k]
    ensures Join(Split(s, c), c) == s
    decreases |s|
  {
    if c in s {
      var (head, tail) := SplitAtFirst(s, c);
      SplitSpec(tail, c);
      assert Split(s, c) == [head] + Split(tail, c);
    }
  }

  /** Splitting `a + [c] + rest` when `a` holds no `c` gives `a` first. */
  lemma SplitAfterFirstPiece(a: string, c: char, rest: string)
    requires c !in a
    ensures Split(a + [c] + rest, c) == [a] + Split(rest, c)
  {
    SplitAtFirstOf(a, c, rest);
  }

  /** The pieces `Split` returns are the only `c`-free pieces that join to
      `s`: splitting a join of `c`-free pieces gives those pieces back. */
  lemma {:induction false} SplitJoin(parts: seq<string>, c: char)
    requires parts != []
    requires forall k :: 0 <= k < |parts| ==> c !in parts[k]
    ensures Split(Join(parts, c), c) == parts
  {
    if |parts| > 1 {
      SplitJoin(parts[1..], c);
      SplitAfterFirstPiece(parts[0], c, Join(parts[1..], c));
    }
  }
}
