/** Values and string operations of Python that the scheduler's code relies on:
    whitespace as `str.isspace()` and the regular-expression class `\s` see it,
    `str.strip()`, `str.split(sep)` with an explicit separator, and the
    substring test `t in s`. */
module Common {

  datatype Option<+T> = None | Some(value: T)

  /** `a` is `b` with some elements left out, the rest in their order. */
  predicate IsSubsequence<T(==)>(a: seq<T>, b: seq<T>) {
    a == [] || (b != [] && ((a[0] == b[0] && IsSubsequence(a[1..], b[1..])) || IsSubsequence(a, b[1..])))
  }

  /** Truthiness of an optional string field: present and not empty. */
  predicate HasText(s: Option<string>) {
    s.Some? && s.value != ""
  }

  /** The characters for which Python's `str.isspace()` holds; the `\s` class
      of a `str` pattern in the `re` module matches exactly these. */
  predicate IsSpace(c: char) {
    var n := c as int;
    n == 0x20 || 0x09 <= n <= 0x0d || 0x1c <= n <= 0x1f || n == 0x85 || n == 0xa0
    || n == 0x1680 || 0x2000 <= n <= 0x200a || n == 0x2028 || n == 0x2029
    || n == 0x202f || n == 0x205f || n == 0x3000
  }

  predicate AllSpace(s: string) {
    forall i :: 0 <= i < |s| ==> IsSpace(s[i])
  }

  /** A string that strip() leaves alone: empty, or no whitespace at either end. */
  predicate Trimmed(s: string) {
    s == [] || (!IsSpace(s[0]) && !IsSpace(s[|s| - 1]))
  }

  /** `s.lstrip()`: `s` without its leading whitespace. */
  function LStrip(s: string): (r: string)
    ensures |r| <= |s|
    ensures r != [] ==> !IsSpace(r[0])
  {
    if s != [] && IsSpace(s[0]) then LStrip(s[1..]) else s
  }

  /** `s.rstrip()`: `s` without its trailing whitespace. */
  function RStrip(s: string): (r: string)
    ensures |r| <= |s|
    ensures r != [] ==> !IsSpace(r[|r| - 1]) && r[0] == s[0]
  {
    if s != [] && IsSpace(s[|s| - 1]) then RStrip(s[..|s| - 1]) else s
  }

  /** `s.strip()`. */
  function Strip(s: string): (r: string)
    ensures Trimmed(r)
  {
    RStrip(LStrip(s))
  }

  /** lstrip() removes only a run of whitespace from the front. */
  lemma {:induction false} LStripSuffix(s: string)
    ensures var r := LStrip(s); r == s[|s| - |r|..] && AllSpace(s[..|s| - |r|])
  {
    if s != [] && IsSpace(s[0]) {
      LStripSuffix(s[1..]);
      var r := LStrip(s[1..]);
      assert s[..|s| - |r|] == [s[0]] + s[1..][..|s| - 1 - |r|];
    }
  }

  /** rstrip() removes only a run of whitespace from the back. */
  lemma {:induction false} RStripPrefix(s: string)
    ensures var r := RStrip(s); r == s[..|r|] && AllSpace(s[|r|..])
  {
    if s != [] && IsSpace(s[|s| - 1]) {
      RStripPrefix(s[..|s| - 1]);
      var r := RStrip(s[..|s| - 1]);
      assert s[|r|..] == s[..|s| - 1][|r|..] + [s[|s| - 1]];
    }
  }

  /** strip() keeps every character that is not whitespace. */
  lemma {:induction false} StripKeeps(s: string, c: char)
    requires c in s && !IsSpace(c)
    ensures c in Strip(s)
  {
    LStripKeeps(s, c);
    RStripKeeps(LStrip(s), c);
  }

  lemma {:induction false} LStripKeeps(s: string, c: char)
    requires c in s && !IsSpace(c)
    ensures c in LStrip(s)
  {
    if IsSpace(s[0]) {
      assert s == [s[0]] + s[1..];
      LStripKeeps(s[1..], c);
    }
  }

  lemma {:induction false} RStripKeeps(s: string, c: char)
    requires c in s && !IsSpace(c)
    ensures c in RStrip(s)
  {
    if IsSpace(s[|s| - 1]) {
      assert s == s[..|s| - 1] + [s[|s| - 1]];
      RStripKeeps(s[..|s| - 1], c);
    }
  }

  /** Where strip() cuts `s`: after its leading whitespace. */
  function StripStart(s: string): (i: nat)
    ensures i <= |s|
  {
    |s| - |LStrip(s)|
  }

  /** strip() leaves the infix of `s` that starts at StripStart(s), with only
      whitespace before and after it. */
  lemma StripAt(s: string)
    ensures var i, r := StripStart(s), Strip(s);
            && i + |r| <= |s| && s[i..i + |r|] == r
            && AllSpace(s[..i]) && AllSpace(s[i + |r|..])
  {
    var l := LStrip(s);
    var r := RStrip(l);
    LStripSuffix(s);
    RStripPrefix(l);
    var i := |s| - |l|;
    assert s[i..i + |r|] == r;
    assert s[i + |r|..] == l[|r|..];
  }

  /** strip() leaves the infix of `s` between its leading and its trailing
      whitespace. */
  lemma StripInfix(s: string)
    ensures var r := Strip(s);
            exists i :: 0 <= i <= |s| - |r| && s[i..i + |r|] == r && AllSpace(s[..i]) && AllSpace(s[i + |r|..])
  {
    StripAt(s);
  }

  lemma AllSpaceConcat(a: string, b: string)
    requires AllSpace(a) && AllSpace(b)
    ensures AllSpace(a + b)
  {
    forall q | 0 <= q < |a + b| ensures IsSpace((a + b)[q]) {
      if q < |a| { assert (a + b)[q] == a[q]; } else { assert (a + b)[q] == b[q - |a|]; }
    }
  }

  lemma {:induction false} LStripOfPadded(a: string, x: string)
    requires AllSpace(a) && (x == [] || !IsSpace(x[0]))
    ensures LStrip(a + x) == x
  {
    if a != [] {
      assert (a + x)[1..] == a[1..] + x;
      LStripOfPadded(a[1..], x);
    } else {
      assert a + x == x;
    }
  }

  lemma {:induction false} RStripOfPadded(x: string, b: string)
    requires AllSpace(b) && (x == [] || !IsSpace(x[|x| - 1]))
    ensures RStrip(x + b) == x
  {
    if b != [] {
      assert (x + b)[..|x + b| - 1] == x + b[..|b| - 1];
      RStripOfPadded(x, b[..|b| - 1]);
    } else {
      assert x + b == x;
    }
  }

  /** strip() removes exactly the whitespace around a trimmed string: together
      with the ensures of Strip this characterises strip() completely. */
  lemma StripOfPadded(a: string, x: string, b: string)
    requires AllSpace(a) && AllSpace(b) && Trimmed(x)
    ensures Strip(a + x + b) == x
  {
    if x == [] {
      assert a + x + b == a + b;
      LStripOfPadded(a + b, []);
      assert a + b + [] == a + b;
    } else {
      assert a + x + b == a + (x + b);
      LStripOfPadded(a, x + b);
      RStripOfPadded(x, b);
    }
  }

  /** Whitespace added in front of a string does not change what strip()
      leaves of it. */
  lemma StripPadLeft(w: string, x: string)
    requires AllSpace(w)
    ensures Strip(w + x) == Strip(x)
  {
    StripAt(x);
    var m, i := Strip(x), StripStart(x);
    assert x == x[..i] + m + x[i + |m|..];
    assert w + x == (w + x[..i]) + m + x[i + |m|..];
    AllSpaceConcat(w, x[..i]);
    StripOfPadded(w + x[..i], m, x[i + |m|..]);
  }

  /** Whitespace added behind a string does not change what strip() leaves
      of it. */
  lemma StripPadRight(x: string, w: string)
    requires AllSpace(w)
    ensures Strip(x + w) == Strip(x)
  {
    StripAt(x);
    var m, i := Strip(x), StripStart(x);
    assert x == x[..i] + m + x[i + |m|..];
    assert x + w == x[..i] + m + (x[i + |m|..] + w);
    AllSpaceConcat(x[i + |m|..], w);
    StripOfPadded(x[..i], m, x[i + |m|..] + w);
  }

  /** `s.split(sep)` for a one-character separator: the pieces between
      consecutive separators, empty pieces included. */
  function Split(s: string, sep: char): (parts: seq<string>)
    ensures |parts| >= 1
    ensures forall k :: 0 <= k < |parts| ==> sep !in parts[k]
  {
    if s == [] then [[]]
    else
      var rest := Split(s[1..], sep);
      if s[0] == sep then [[]] + rest else [[s[0]] + rest[0]] + rest[1..]
  }

  /** `sep.join(parts)`. */
  function Join(parts: seq<string>, sep: char): (joined: string)
    requires |parts| >= 1
  {
    if |parts| == 1 then parts[0] else parts[0] + [sep] + Join(parts[1..], sep)
  }

  /** Joining the pieces of a split gives back the original string. */
  lemma {:induction false} JoinSplit(s: string, sep: char)
    ensures Join(Split(s, sep), sep) == s
  {
    if s != [] {
      var rest := Split(s[1..], sep);
      JoinSplit(s[1..], sep);
      if s[0] != sep {
        if |rest| > 1 {
          assert rest == [rest[0]] + rest[1..];
          assert Join(rest, sep) == rest[0] + [sep] + Join(rest[1..], sep);
        }
        assert s == [s[0]] + s[1..];
      }
    }
  }

  /** Splitting a string that starts with a separator-free piece and a separator. */
  lemma {:induction false} SplitCons(a: string, sep: char, b: string)
    requires sep !in a
    ensures Split(a + [sep] + b, sep) == [a] + Split(b, sep)
  {
    if a == [] {
      assert a + [sep] + b == [sep] + b;
      assert ([sep] + b)[1..] == b;
    } else {
      assert (a + [sep] + b)[1..] == a[1..] + [sep] + b;
      SplitCons(a[1..], sep, b);
      assert [a[0]] + a[1..] == a;
    }
  }

  /** A separator-free string splits into itself. */
  lemma {:induction false} SplitNone(a: string, sep: char)
    requires sep !in a
    ensures Split(a, sep) == [a]
  {
    if a != [] {
      SplitNone(a[1..], sep);
      assert [a[0]] + a[1..] == a;
    }
  }

  /** Splitting a join of separator-free pieces gives the pieces back. */
  lemma {:induction false} SplitJoin(parts: seq<string>, sep: char)
    requires |parts| >= 1
    requires forall k :: 0 <= k < |parts| ==> sep !in parts[k]
    ensures Split(Join(parts, sep), sep) == parts
  {
    if |parts| == 1 {
      SplitNone(parts[0], sep);
    } else {
      SplitJoin(parts[1..], sep);
      SplitCons(parts[0], sep, Join(parts[1..], sep));
      assert [parts[0]] + parts[1..] == parts;
    }
  }

  /** What `sep.join` puts after the first two pieces: nothing, or a
      separator followed by the remaining pieces. */
  function JoinRest(parts: seq<string>, sep: char): (rest: string)
    requires |parts| >= 2
    ensures rest == [] || rest[0] == sep
  {
    if |parts| == 2 then [] else [sep] + Join(parts[2..], sep)
  }

  lemma JoinFirstTwo(parts: seq<string>, sep: char)
    requires |parts| >= 2
    ensures Join(parts, sep) == parts[0] + [sep] + parts[1] + JoinRest(parts, sep)
  {
    var tail := parts[1..];
    assert tail[0] == parts[1] && tail[1..] == parts[2..];
    if |parts| == 2 {
      assert Join(tail, sep) == parts[1];
    } else {
      assert Join(tail, sep) == parts[1] + [sep] + Join(parts[2..], sep);
    }
  }

  /** A string that splits into two or more pieces is its first piece, a
      separator, its second piece and the rest. */
  lemma SplitFirstTwo(s: string, sep: char)
    requires |Split(s, sep)| >= 2
    ensures var parts := Split(s, sep);
            s == parts[0] + [sep] + parts[1] + JoinRest(parts, sep)
  {
    JoinSplit(s, sep);
    JoinFirstTwo(Split(s, sep), sep);
  }

  /** A separator-free piece followed by the end or by a separator is the
      first piece of the split. */
  lemma SplitHeadOf(a: string, sep: char, b: string)
    requires sep !in a && (b == [] || b[0] == sep)
    ensures b == [] ==> Split(a + b, sep) == [a]
    ensures b != [] ==> Split(a + b, sep) == [a] + Split(b[1..], sep)
  {
    if b == [] {
      assert a + b == a;
      SplitNone(a, sep);
    } else {
      assert a + b == a + [sep] + b[1..];
      SplitCons(a, sep, b[1..]);
    }
  }

  /** Python's `t in s` on strings, scanned position by position. */
  predicate IsSubstring(t: string, s: string)
    decreases |s|
  {
    t <= s || (s != [] && IsSubstring(t, s[1..]))
  }

  /** `t` occurs in `s` starting at position `i`. */
  predicate OccursAt(t: string, s: string, i: int) {
    0 <= i <= |s| - |t| && s[i..i + |t|] == t
  }

  /** `t in s` holds exactly when `t` occurs in `s` at some position. */
  lemma IsSubstringIff(t: string, s: string)
    ensures IsSubstring(t, s) <==> exists i :: OccursAt(t, s, i)
  {
    if IsSubstring(t, s) {
      SubstringOccurs(t, s);
    }
    forall i | OccursAt(t, s, i)
      ensures IsSubstring(t, s)
    {
      OccursAtSubstring(t, s, i);
    }
  }

  lemma {:induction false} SubstringOccurs(t: string, s: string)
    requires IsSubstring(t, s)
    ensures exists i :: OccursAt(t, s, i)
    decreases |s|
  {
    if t <= s {
      assert s[0..|t|] == t;
      assert OccursAt(t, s, 0);
    } else {
      var tail := s[1..];
      SubstringOccurs(t, tail);
      var i :| OccursAt(t, tail, i);
      assert s[i + 1..i + 1 + |t|] == tail[i..i + |t|];
      assert OccursAt(t, s, i + 1);
    }
  }

  lemma {:induction false} OccursAtSubstring(t: string, s: string, i: int)
    requires OccursAt(t, s, i)
    ensures IsSubstring(t, s)
    decreases i
  {
    if i == 0 {
      assert s[..|t|] == t;
    } else {
      var tail := s[1..];
      assert tail[i - 1..i - 1 + |t|] == s[i..i + |t|];
      OccursAtSubstring(t, tail, i - 1);
    }
  }


}
