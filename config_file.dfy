/** `load_config`: reads `key = value` lines of a plain-text settings file
    into a dictionary. */
module ConfigFile {
  import opened Common

  /** `line.startswith('#')`. */
  predicate StartsWithHash(line: string) {
    |line| > 0 && line[0] == '#'
  }

  /** A line the loader takes an entry from: not empty, not starting with
      `#` (as read, before any stripping) and containing `=`. */
  predicate IsEntry(line: string) {
    line != [] && !StartsWithHash(line) && '=' in line
  }

  /** `s.split(c, 1)` when `c` occurs in `s`: the text before the first `c`
      and the text after it. */
  function SplitOnce(s: string, c: char): (parts: (string, string))
    requires c in s
    ensures s == parts.0 + [c] + parts.1 && c !in parts.0
  {
    if s[0] == c then ([], s[1..])
    else
      var (before, after) := SplitOnce(s[1..], c);
      assert s == [s[0]] + s[1..];
      ([s[0]] + before, after)
  }

  /** The text before the first `=`, stripped, of a line stripped first. */
  function KeyOf(line: string): (key: string)
    requires '=' in line
  {
    assert '=' in Strip(line) by { StripKeeps(line, '='); }
    Strip(SplitOnce(Strip(line), '=').0)
  }

  /** The text after the first `=`, stripped, of a line stripped first. */
  function ValueOf(line: string): (value: string)
    requires '=' in line
  {
    assert '=' in Strip(line) by { StripKeeps(line, '='); }
    Strip(SplitOnce(Strip(line), '=').1)
  }

  /** The dictionary after the lines `lines`, in order: each entry line sets
      its key, so a later line overrides an earlier one. */
  function ConfigOf(lines: seq<string>): (config: map<string, string>)
  {
    if lines == [] then map[]
    else
      var config := ConfigOf(lines[..|lines| - 1]);
      var line := lines[|lines| - 1];
      if IsEntry(line) then config[KeyOf(line) := ValueOf(line)] else config
  }

  /** `load_config(path)`. The file is given as the lines it delivered (with
      their line ends), or None when it does not exist; a read that fails
      part-way is the lines delivered before the failure. */
  method LoadConfig(file: Option<seq<string>>) returns (config: map<string, string>)
    ensures file.None? ==> config == map[]
    ensures file.Some? ==> config == ConfigOf(file.value)
  {
    config := map[];
    if file.None? {
      return;
    }
    var lines := file.value;
    for i := 0 to |lines|
      invariant config == ConfigOf(lines[..i])
    {
      var line := lines[i];
      assert lines[..i + 1][..i] == lines[..i];
      if line != [] && !StartsWithHash(line) && '=' in line {
        StripKeeps(line, '=');
        var (key, value) := SplitOnce(Strip(line), '=');
        config := config[Strip(key) := Strip(value)];
      }
    }
    assert lines[..|lines|] == lines;
  }

  // ---------------------------------------------------------------------
  // Properties

  /** A line that sets `key`. */
  predicate SetsKey(line: string, key: string) {
    IsEntry(line) && KeyOf(line) == key
  }

  /** A key is in the dictionary exactly when some entry line names it. */
  lemma {:induction false} ConfigKeys(lines: seq<string>, key: string)
    ensures key in ConfigOf(lines) <==> exists line :: line in lines && SetsKey(line, key)
  {
    if lines != [] {
      var init, last := lines[..|lines| - 1], lines[|lines| - 1];
      assert lines == init + [last];
      ConfigKeys(init, key);
      ConfigLastLine(lines, key);
      if SetsKey(last, key) {
        assert last in lines;
      }
    }
  }

  lemma ConfigLastLine(lines: seq<string>, key: string)
    requires lines != []
    ensures key in ConfigOf(lines) <==> key in ConfigOf(lines[..|lines| - 1]) || SetsKey(lines[|lines| - 1], key)
  {
  }

  /** The last entry line for a key decides its value. */
  lemma {:induction false} ConfigLastWins(lines: seq<string>, i: int)
    requires 0 <= i < |lines| && IsEntry(lines[i])
    requires forall j :: i < j < |lines| ==> !SetsKey(lines[j], KeyOf(lines[i]))
    ensures KeyOf(lines[i]) in ConfigOf(lines) && ConfigOf(lines)[KeyOf(lines[i])] == ValueOf(lines[i])
  {
    var init := lines[..|lines| - 1];
    if i < |lines| - 1 {
      assert init[i] == lines[i];
      forall j | i < j < |init|
        ensures !SetsKey(init[j], KeyOf(init[i]))
      {
        assert init[j] == lines[j];
      }
      ConfigLastWins(init, i);
    }
  }

  /** Lines that are not entries leave the dictionary as it is. */
  lemma SkippedLine(lines: seq<string>, line: string)
    requires !IsEntry(line)
    ensures ConfigOf(lines + [line]) == ConfigOf(lines)
  {
    assert (lines + [line])[..|lines|] == lines;
  }

  /** Whitespace around a string with a `=` stays with the text before and
      after its first `=`. */
  lemma SplitOncePadded(u: string, m: string, v: string)
    requires AllSpace(u) && AllSpace(v) && '=' in m
    ensures '=' in u + m + v
    ensures SplitOnce(u + m + v, '=') == (u + SplitOnce(m, '=').0, SplitOnce(m, '=').1 + v)
  {
    var (a, b) := SplitOnce(m, '=');
    assert '=' !in u;
    assert '=' !in u + a;
    assert u + m + v == (u + a) + ['='] + (b + v);
    SplitOnceAt(u + a, '=', b + v);
  }

  /** Helper: a string cut in three, kept apart to keep the callers' proofs small. */
  lemma Pieces(s: string, i: nat, j: nat)
    requires i <= j <= |s|
    ensures s == s[..i] + s[i..j] + s[j..]
  {
  }

  /** Stripping the whole line first does not change the stripped key and
      value: they are the stripped text before and after the line's first
      `=`, since the `=` is not whitespace. */
  lemma KeyValueOfLine(s: string)
    requires '=' in s
    ensures KeyOf(s) == Strip(SplitOnce(s, '=').0)
    ensures ValueOf(s) == Strip(SplitOnce(s, '=').1)
  {
    StripAt(s);
    StripKeeps(s, '=');
    var m, i := Strip(s), StripStart(s);
    var j := i + |m|;
    var u, v := s[..i], s[j..];
    Pieces(s, i, j);
    SplitOncePadded(u, m, v);
    var a, b := SplitOnce(m, '=').0, SplitOnce(m, '=').1;
    assert SplitOnce(s, '=') == (u + a, b + v);
    StripPadLeft(u, a);
    StripPadRight(b, v);
    assert KeyOf(s) == Strip(a);
    assert ValueOf(s) == Strip(b);
  }

  /** A line `<ws>key<ws>=<ws>value<ws>` with a key free of `=` yields that
      key and that value. Either may be empty (`KEY=` gives the empty
      value), and the value may itself contain `=`. */
  lemma EntryLine(w1: string, key: string, w2: string, w3: string, value: string, w4: string)
    requires AllSpace(w1) && AllSpace(w2) && AllSpace(w3) && AllSpace(w4)
    requires Trimmed(key) && Trimmed(value) && '=' !in key
    ensures var line := w1 + key + w2 + "=" + w3 + value + w4;
            '=' in line && KeyOf(line) == key && ValueOf(line) == value
  {
    var line := w1 + key + w2 + "=" + w3 + value + w4;
    var before := w1 + key + w2;
    assert '=' !in before by {
      forall q | 0 <= q < |before| ensures before[q] != '=' {
        if q < |w1| {
          assert before[q] == w1[q];
        } else if q < |w1| + |key| {
          assert before[q] == key[q - |w1|];
        } else {
          assert before[q] == w2[q - |w1| - |key|];
        }
      }
    }
    assert line == before + ['='] + (w3 + value + w4);
    SplitOnceAt(before, '=', w3 + value + w4);
    KeyValueOfLine(line);
    StripOfPadded(w1, key, w2);
    StripOfPadded(w3, value, w4);
  }

  lemma {:induction false} SplitOnceAt(a: string, c: char, b: string)
    requires c !in a
    ensures c in a + [c] + b && SplitOnce(a + [c] + b, c) == (a, b)
  {
    assert (a + [c] + b)[|a|] == c;
    if a != [] {
      assert (a + [c] + b)[1..] == a[1..] + [c] + b;
      SplitOnceAt(a[1..], c, b);
      assert [a[0]] + a[1..] == a;
    }
  }

  /** A single such line makes a one-entry dictionary. The line must not
      start with `#`, but only its first column counts: indented, a key may
      itself start with `#`; `=value` and `key=` make entries too. */
  lemma EntryLineConfig(w1: string, key: string, w2: string, w3: string, value: string, w4: string)
    requires AllSpace(w1) && AllSpace(w2) && AllSpace(w3) && AllSpace(w4)
    requires Trimmed(key) && Trimmed(value) && '=' !in key
    requires w1 != [] || key == [] || key[0] != '#'
    ensures var line := w1 + key + w2 + "=" + w3 + value + w4;
            IsEntry(line) && ConfigOf([line]) == map[key := value]
  {
    var line := w1 + key + w2 + "=" + w3 + value + w4;
    EntryLine(w1, key, w2, w3, value, w4);
    var none: seq<string> := [];
    assert [line][..0] == none;
    if w1 != [] {
      assert line[0] == w1[0];
    } else if key != [] {
      assert line[0] == key[0];
    } else if w2 != [] {
      assert line[0] == w2[0];
    } else {
      assert line[0] == '=';
    }
  }
}
