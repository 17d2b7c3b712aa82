/**
 * The Python string operations the harness relies on, each with the semantics
 * Python gives it: `str.find`, `in`, `str.split(sep)`, `str.split()`,
 * `str.strip(ch)`, `str(n)`, `int(s)` and `os.path.join`.
 */
module Text {
  import opened Results

  // ---------------------------------------------------------------------------
  // Searching
  // ---------------------------------------------------------------------------

  /** Index of the first occurrence of character `c` in `s`. */
  function IndexOf(s: string, c: char): (i: nat)
    requires c in s
    ensures i < |s| && s[i] == c
    ensures c !in s[..i]
  {
    if s[0] == c then 0
    else
      var j := IndexOf(s[1..], c);
      assert s[..j + 1] == [s[0]] + s[1..][..j];
      j + 1
  }

  /** `p` occurs in `s` starting at position `i`. */
  predicate OccursAt(s: string, p: string, i: nat)
  {
    i + |p| <= |s| && s[i..i + |p|] == p
  }

  /** Past the first position, `p` occurs in `s` exactly where it occurs in `s[1..]`, one further on. */
  lemma OccursShift(s: string, p: string)
    requires |s| > 0 && !(p <= s)
    ensures forall j: nat :: OccursAt(s, p, j) <==> j > 0 && OccursAt(s[1..], p, j - 1)
  {
    forall j: nat ensures OccursAt(s, p, j) <==> j > 0 && OccursAt(s[1..], p, j - 1) {
      if j == 0 {
        if |p| <= |s| {
          assert s[0..0 + |p|] == s[..|p|];
          assert p != s[..|p|];
        }
      } else if j + |p| <= |s| {
        var here := s[j..j + |p|];
        var there := s[1..][j - 1..j - 1 + |p|];
        forall k | 0 <= k < |p| ensures here[k] == there[k] {
          assert here[k] == s[j + k];
          assert there[k] == s[1..][j - 1 + k];
        }
        assert here == there;
      }
    }
  }

  /** Python's `s.find(p)`: the least position where `p` occurs, or -1. */
  function Find(s: string, p: string): (r: int)
    ensures -1 <= r <= |s|
    ensures r >= 0 ==> OccursAt(s, p, r)
    ensures forall j: nat :: j < r ==> !OccursAt(s, p, j)
    ensures r == -1 ==> forall j: nat :: !OccursAt(s, p, j)
    ensures r == 0 <==> p <= s
    decreases |s|
  {
    if p <= s then
      assert OccursAt(s, p, 0);
      0
    else if |s| == 0 then
      assert forall j: nat :: !OccursAt(s, p, j) by {
        forall j: nat ensures !OccursAt(s, p, j) {
          if j == 0 {
            assert !OccursAt(s, p, 0);
          }
        }
      }
      -1
    else
      var r := Find(s[1..], p);
      OccursShift(s, p);
      if r < 0 then -1 else r + 1
  }

  /** Python's `p in s` for strings. */
  predicate Contains(s: string, p: string)
  {
    Find(s, p) >= 0
  }

  /** An occurrence of `p` makes `Contains` hold, and `find` reports it or an earlier one. */
  lemma ContainsOfOccurrence(s: string, p: string, i: nat)
    requires OccursAt(s, p, i)
    ensures Contains(s, p) && Find(s, p) <= i
  {
  }

  /** `Contains` holds exactly when `p` occurs somewhere in `s`. */
  lemma ContainsIffOccurs(s: string, p: string)
    ensures Contains(s, p) <==> exists i: nat :: OccursAt(s, p, i)
  {
    if Contains(s, p) {
      assert OccursAt(s, p, Find(s, p) as nat);
    }
  }

  // ---------------------------------------------------------------------------
  // str.split(sep), '\n'.join and line termination
  // ---------------------------------------------------------------------------

  /** Python's `sep.join(parts)` for a one-character separator. */
  function Join(parts: seq<string>, sep: char): string
  {
    if |parts| == 0 then ""
    else if |parts| == 1 then parts[0]
    else parts[0] + [sep] + Join(parts[1..], sep)
  }

  /** Python's `s.split(sep)`: never empty, no piece holds `sep`, joining restores `s`. */
  function Split(s: string, sep: char): (parts: seq<string>)
    ensures |parts| >= 1
    ensures forall i :: 0 <= i < |parts| ==> sep !in parts[i]
    ensures Join(parts, sep) == s
    ensures sep in s <==> |parts| >= 2
    decreases |s|
  {
    if sep !in s then [s]
    else
      var i := IndexOf(s, sep);
      var rest := Split(s[i + 1..], sep);
      var parts := [s[..i]] + rest;
      assert parts[1..] == rest;
      assert s == s[..i] + [sep] + s[i + 1..];
      parts
  }

  /** Splitting a piece free of the separator followed by the separator peels that piece off. */
  lemma {:induction false} SplitCons(head: string, sep: char, tail: string)
    requires sep !in head
    ensures Split(head + [sep] + tail, sep) == [head] + Split(tail, sep)
  {
    var s := head + [sep] + tail;
    assert s[|head|] == sep;
    var i := IndexOf(s, sep);
    assert forall j :: 0 <= j < |head| ==> s[j] == head[j];
    assert i == |head|;
    assert s[..i] == head;
    assert s[i + 1..] == tail;
  }

  /** Splitting undoes joining when no piece contains the separator. */
  lemma {:induction false} SplitJoin(parts: seq<string>, sep: char)
    requires |parts| >= 1
    requires forall i :: 0 <= i < |parts| ==> sep !in parts[i]
    ensures Split(Join(parts, sep), sep) == parts
    decreases |parts|
  {
    if |parts| > 1 {
      SplitJoin(parts[1..], sep);
      SplitCons(parts[0], sep, Join(parts[1..], sep));
      assert parts == [parts[0]] + parts[1..];
    }
  }

  /** Every line followed by `sep`, concatenated: what a logger writing lines emits. */
  function Terminated(lines: seq<string>, sep: char): string
  {
    if |lines| == 0 then "" else lines[0] + [sep] + Terminated(lines[1..], sep)
  }

  lemma {:induction false} TerminatedAppend(a: seq<string>, b: seq<string>, sep: char)
    ensures Terminated(a + b, sep) == Terminated(a, sep) + Terminated(b, sep)
    decreases |a|
  {
    if |a| > 0 {
      TerminatedAppend(a[1..], b, sep);
      assert (a + b)[0] == a[0];
      assert (a + b)[1..] == a[1..] + b;
      calc {
        Terminated(a + b, sep);
        a[0] + [sep] + Terminated(a[1..] + b, sep);
        a[0] + [sep] + (Terminated(a[1..], sep) + Terminated(b, sep));
        Terminated(a, sep) + Terminated(b, sep);
      }
    } else {
      assert a + b == b;
    }
  }

  /** All pieces but the last, each terminated, followed by the last piece, is the join. */
  lemma {:induction false} TerminatedThenLast(parts: seq<string>, sep: char)
    requires |parts| >= 1
    ensures Terminated(parts[..|parts| - 1], sep) + parts[|parts| - 1] == Join(parts, sep)
    decreases |parts|
  {
    if |parts| > 1 {
      var init := parts[..|parts| - 1];
      TerminatedThenLast(parts[1..], sep);
      assert parts[1..][..|parts[1..]| - 1] == init[1..];
    }
  }

  lemma StringAssoc(a: string, b: string, c: string)
    ensures a + b + c == a + (b + c)
  {
  }

  /**
   * Splitting terminated lines followed by a last piece recovers them, when no
   * piece contains `sep`: such a decomposition of a string is unique.
   */
  lemma {:induction false} SplitTerminated(lines: seq<string>, last: string, sep: char)
    requires forall i :: 0 <= i < |lines| ==> sep !in lines[i]
    requires sep !in last
    ensures Split(Terminated(lines, sep) + last, sep) == lines + [last]
    decreases |lines|
  {
    if |lines| == 0 {
      assert Terminated(lines, sep) + last == last;
    } else {
      var rest := lines[1..];
      var x := Terminated(rest, sep) + last;
      assert Split(x, sep) == rest + [last] by {
        forall i | 0 <= i < |rest| ensures sep !in rest[i] {
          assert rest[i] == lines[i + 1];
        }
        SplitTerminated(rest, last, sep);
      }
      assert Terminated(lines, sep) + last == lines[0] + [sep] + x by {
        StringAssoc(lines[0] + [sep], Terminated(rest, sep), last);
      }
      SplitCons(lines[0], sep, x);
      assert lines + [last] == [lines[0]] + (rest + [last]);
    }
  }

  // ---------------------------------------------------------------------------
  // str.split() with no argument
  // ---------------------------------------------------------------------------

  /** The characters Python's argument-less `str.split()` treats as separators. */
  predicate IsSpace(c: char)
  {
    c == ' ' || c == '\t' || c == '\n' || c == '\r' || c == '\U{000B}' || c == '\U{000C}'
  }

  predicate NoSpace(s: string)
  {
    forall i :: 0 <= i < |s| ==> !IsSpace(s[i])
  }

  /** Length of the leading run of non-space characters. */
  function WordLength(s: string): (n: nat)
    ensures n <= |s|
    ensures NoSpace(s[..n])
    ensures n < |s| ==> IsSpace(s[n])
    decreases |s|
  {
    if |s| == 0 || IsSpace(s[0]) then 0
    else
      var n := WordLength(s[1..]);
      assert s[..n + 1] == [s[0]] + s[1..][..n];
      n + 1
  }

  /**
   * Python's `s.split()`: the maximal runs of non-space characters, in order.
   * There are none exactly when `s` is all separators; `WordsJoin` and
   * `WordsAfterSpace` pin down where the runs start and end.
   */
  function Words(s: string): (ws: seq<string>)
    ensures forall i :: 0 <= i < |ws| ==> |ws[i]| > 0 && NoSpace(ws[i])
    ensures ws == [] <==> forall i :: 0 <= i < |s| ==> IsSpace(s[i])
    decreases |s|
  {
    if |s| == 0 then []
    else if IsSpace(s[0]) then
      assert forall i :: 1 <= i < |s| ==> s[i] == s[1..][i - 1];
      Words(s[1..])
    else
      var n := WordLength(s);
      [s[..n]] + Words(s[n..])
  }

  /** A run of separators in front changes no word. */
  lemma {:induction false} WordsAfterSpace(sp: string, s: string)
    requires forall i :: 0 <= i < |sp| ==> IsSpace(sp[i])
    ensures Words(sp + s) == Words(s)
    decreases |sp|
  {
    if |sp| == 0 {
      assert sp + s == s;
    } else {
      assert (sp + s)[0] == sp[0];
      assert (sp + s)[1..] == sp[1..] + s;
      WordsAfterSpace(sp[1..], s);
    }
  }

  /** Words joined by single spaces split back into exactly those words. */
  lemma {:induction false} WordsJoin(ws: seq<string>)
    requires forall i :: 0 <= i < |ws| ==> |ws[i]| > 0 && NoSpace(ws[i])
    ensures Words(Join(ws, ' ')) == ws
    decreases |ws|
  {
    if |ws| == 1 {
      var w := ws[0];
      WordLengthAll(w);
      assert w[..|w|] == w && w[|w|..] == [];
      assert Words(w) == [w] + Words([]);
    } else if |ws| > 1 {
      WordsJoin(ws[1..]);
      WordsCons(ws[0], ' ', Join(ws[1..], ' '));
      assert ws == [ws[0]] + ws[1..];
    }
  }

  /** A string with no separator is one word run to its end. */
  lemma {:induction false} WordLengthAll(w: string)
    requires NoSpace(w)
    ensures WordLength(w) == |w|
    decreases |w|
  {
    if |w| > 0 {
      WordLengthAll(w[1..]);
    }
  }

  /** A word followed by a separator is split off as the first word. */
  lemma {:induction false} WordsCons(w: string, sp: char, tail: string)
    requires |w| > 0 && NoSpace(w) && IsSpace(sp)
    ensures Words(w + [sp] + tail) == [w] + Words(tail)
  {
    var after := [sp] + tail;
    var s := w + after;
    assert s[0] == w[0];
    WordLengthOfWord(w, after);
    assert s[..|w|] == w;
    assert s[|w|..] == after;
    assert Words(s) == [w] + Words(after);
    assert after[1..] == tail;
    assert Words(after) == Words(tail);
    assert s == w + [sp] + tail;
  }

  lemma {:induction false} WordLengthOfWord(w: string, tail: string)
    requires NoSpace(w)
    requires |tail| > 0 && IsSpace(tail[0])
    ensures WordLength(w + tail) == |w|
    decreases |w|
  {
    if |w| > 0 {
      WordLengthOfWord(w[1..], tail);
      assert (w + tail)[1..] == w[1..] + tail;
    }
  }

  // ---------------------------------------------------------------------------
  // str.strip() and str.strip(ch)
  // ---------------------------------------------------------------------------

  /** `s` with its leading separators removed. */
  function TrimLeftSpace(s: string): (r: string)
    ensures |r| <= |s| && r == s[|s| - |r|..]
    ensures forall i :: 0 <= i < |s| - |r| ==> IsSpace(s[i])
    ensures |r| == 0 || !IsSpace(r[0])
    decreases |s|
  {
    if |s| > 0 && IsSpace(s[0]) then TrimLeftSpace(s[1..]) else s
  }

  /** `s` with its trailing separators removed. */
  function TrimRightSpace(s: string): (r: string)
    ensures |r| <= |s| && r == s[..|r|]
    ensures forall i :: |r| <= i < |s| ==> IsSpace(s[i])
    ensures |r| == 0 || !IsSpace(r[|r| - 1])
    decreases |s|
  {
    if |s| > 0 && IsSpace(s[|s| - 1]) then TrimRightSpace(s[..|s| - 1]) else s
  }

  /** Python's argument-less `s.strip()`: `s` without its leading and trailing separators. */
  function TrimSpace(s: string): (r: string)
    ensures |r| == 0 || (!IsSpace(r[0]) && !IsSpace(r[|r| - 1]))
    ensures |r| <= |s|
    ensures NoSpace(s) ==> r == s
  {
    TrimRightSpace(TrimLeftSpace(s))
  }

  // ---------------------------------------------------------------------------

  function StripLeft(s: string, c: char): (r: string)
    ensures |r| <= |s|
    decreases |s|
  {
    if |s| > 0 && s[0] == c then StripLeft(s[1..], c) else s
  }

  /** `StripLeft` keeps a suffix of `s` that does not start with `c`, and drops only `c`s. */
  lemma {:induction false} StripLeftFacts(s: string, c: char)
    ensures var r := StripLeft(s, c);
            && r == s[|s| - |r|..]
            && (forall i :: 0 <= i < |s| - |r| ==> s[i] == c)
            && (|r| == 0 || r[0] != c)
    decreases |s|
  {
    if |s| > 0 && s[0] == c {
      StripLeftFacts(s[1..], c);
      var r := StripLeft(s, c);
      forall i | 1 <= i < |s| - |r| ensures s[i] == c {
        assert s[i] == s[1..][i - 1];
      }
    }
  }

  function StripRight(s: string, c: char): (r: string)
    ensures |r| <= |s|
    decreases |s|
  {
    if |s| > 0 && s[|s| - 1] == c then StripRight(s[..|s| - 1], c) else s
  }

  /** `StripRight` keeps a prefix of `s` that does not end with `c`, and drops only `c`s. */
  lemma {:induction false} StripRightFacts(s: string, c: char)
    ensures var r := StripRight(s, c);
            && r == s[..|r|]
            && (forall i :: |r| <= i < |s| ==> s[i] == c)
            && (|r| == 0 || r[|r| - 1] != c)
    decreases |s|
  {
    if |s| > 0 && s[|s| - 1] == c {
      StripRightFacts(s[..|s| - 1], c);
      var r := StripRight(s, c);
      forall i | |r| <= i < |s| - 1 ensures s[i] == c {
        assert s[i] == s[..|s| - 1][i];
      }
    }
  }

  /**
   * Python's `s.strip(c)`: the middle of `s` left after removing every leading and
   * trailing `c`; it neither starts nor ends with `c`.
   */
  function Strip(s: string, c: char): (r: string)
    ensures |r| <= |s|
    ensures |r| == 0 || (r[0] != c && r[|r| - 1] != c)
  {
    StripLeftFacts(s, c);
    StripRightFacts(StripLeft(s, c), c);
    StripRight(StripLeft(s, c), c)
  }

  /** What `Strip` keeps is a slice of `s`, starting where `StripLeft` starts. */
  lemma StripSlice(s: string, c: char)
    ensures var r := Strip(s, c);
            var lead := |s| - |StripLeft(s, c)|;
            lead + |r| <= |s| && r == s[lead..lead + |r|]
  {
    var left := StripLeft(s, c);
    var r := StripRight(left, c);
    var lead := |s| - |left|;
    StripLeftFacts(s, c);
    StripRightFacts(left, c);
    assert left == s[lead..];
    assert r == left[..|r|];
  }

  /** What `Strip` removes is a run of `c` at each end. */
  lemma StripEnds(s: string, c: char)
    ensures var r := Strip(s, c);
            var lead := |s| - |StripLeft(s, c)|;
            && (forall i :: 0 <= i < lead ==> s[i] == c)
            && (forall i :: lead + |r| <= i < |s| ==> s[i] == c)
  {
    var left := StripLeft(s, c);
    var r := StripRight(left, c);
    var lead := |s| - |left|;
    StripLeftFacts(s, c);
    StripRightFacts(left, c);
    forall i | lead + |r| <= i < |s| ensures s[i] == c {
      assert s[i] == left[i - lead];
    }
  }

  /** Stripping a key wrapped in one leading `c` gives the key back. */
  lemma StripWrapped(key: string, c: char)
    requires |key| > 0 && key[0] != c && key[|key| - 1] != c
    ensures Strip([c] + key, c) == key
  {
    var s := [c] + key;
    assert s[1..] == key;
    assert StripLeft(s, c) == key;
    StripRightFacts(key, c);
  }

  // ---------------------------------------------------------------------------
  // Decimal numerals: str(n) and int(s)
  // ---------------------------------------------------------------------------

  predicate IsDigit(ch: char)
  {
    '0' <= ch <= '9'
  }

  predicate AllDigits(s: string)
  {
    forall i :: 0 <= i < |s| ==> IsDigit(s[i])
  }

  function DigitChar(d: nat): (ch: char)
    requires d < 10
    ensures IsDigit(ch)
  {
    ('0' as int + d) as char
  }

  function DigitValue(ch: char): nat
    requires IsDigit(ch)
  {
    ch as int - '0' as int
  }

  /** Python's `str(n)` for a natural number: decimal digits, no leading zero. */
  function NatToString(n: nat): (s: string)
    ensures |s| >= 1 && AllDigits(s)
    ensures s[0] == '0' ==> n == 0
    decreases n
  {
    if n < 10 then [DigitChar(n)] else NatToString(n / 10) + [DigitChar(n % 10)]
  }

  /** The number a string of decimal digits denotes. */
  function DigitsValue(s: string): nat
    requires AllDigits(s)
    decreases |s|
  {
    if |s| == 0 then 0 else 10 * DigitsValue(s[..|s| - 1]) + DigitValue(s[|s| - 1])
  }

  /** Reading back a rendered number gives the number. */
  lemma {:induction false} DigitsValueOfNatToString(n: nat)
    ensures DigitsValue(NatToString(n)) == n
    decreases n
  {
    if n >= 10 {
      DigitsValueOfNatToString(n / 10);
      var s := NatToString(n);
      assert s[..|s| - 1] == NatToString(n / 10);
    }
  }

  /** Different numbers render differently. */
  lemma NatToStringInjective(a: nat, b: nat)
    requires NatToString(a) == NatToString(b)
    ensures a == b
  {
    DigitsValueOfNatToString(a);
    DigitsValueOfNatToString(b);
  }

  /**
   * Python's `int(s)` on an optional sign followed by decimal digits; anything else
   * raises `ValueError`, modelled as `None`.
   */
  function ParseInt(s: string): (r: Option<int>)
    ensures r.Some? <==> |s| > 0 && AllDigits(s[1..])
                          && (IsDigit(s[0]) || ((s[0] == '-' || s[0] == '+') && |s| > 1))
  {
    if |s| == 0 then None
    else if (s[0] == '-' || s[0] == '+') && |s| > 1 && AllDigits(s[1..]) then
      var v: int := DigitsValue(s[1..]);
      Some(if s[0] == '-' then -v else v)
    else if IsDigit(s[0]) && AllDigits(s[1..]) then
      assert AllDigits(s);
      Some(DigitsValue(s))
    else None
  }

  /** `int(str(n)) == n`. */
  lemma ParseIntOfNatToString(n: nat)
    ensures ParseInt(NatToString(n)) == Some(n)
  {
    DigitsValueOfNatToString(n);
  }

  /**
   * Python's `int(s)` on a string: surrounding separators are ignored, then an
   * optional sign and decimal digits; `None` stands for `ValueError`.
   */
  function PyInt(s: string): (r: Option<int>)
    ensures NoSpace(s) ==> r == ParseInt(s)
  {
    ParseInt(TrimSpace(s))
  }

  /** Decimal digits contain no separator. */
  lemma DigitsHaveNoSpace(s: string)
    requires AllDigits(s)
    ensures NoSpace(s)
  {
  }

  /** `int(str(n)) == n` through the whitespace-tolerant reading as well. */
  lemma PyIntOfNatToString(n: nat)
    ensures PyInt(NatToString(n)) == Some(n)
  {
    DigitsHaveNoSpace(NatToString(n));
    ParseIntOfNatToString(n);
  }

  // ---------------------------------------------------------------------------
  // os.path.join and repetition
  // ---------------------------------------------------------------------------

  /** `s` ends with `suffix`. */
  predicate EndsWith(s: string, suffix: string)
  {
    |suffix| <= |s| && s[|s| - |suffix|..] == suffix
  }

  /** A path component that `os.path.join` appends rather than substitutes. */
  predicate IsRelative(b: string)
  {
    |b| == 0 || b[0] != '/'
  }

  /** Python's `os.path.join(a, b)` on POSIX. */
  function PathJoin(a: string, b: string): (p: string)
    ensures !IsRelative(b) ==> p == b
    ensures IsRelative(b) ==> a <= p && EndsWith(p, b) && |p| <= |a| + 1 + |b|
    ensures IsRelative(b) ==> p == a + b || p == a + "/" + b
    ensures IsRelative(b) ==> (p == a + b <==> |a| == 0 || a[|a| - 1] == '/')
  {
    if !IsRelative(b) then b
    else if |a| == 0 || a[|a| - 1] == '/' then a + b
    else a + "/" + b
  }

  /** Joining different relative components onto one directory gives different paths. */
  lemma PathJoinInjective(a: string, b1: string, b2: string)
    requires IsRelative(b1) && IsRelative(b2)
    requires b1 != b2
    ensures PathJoin(a, b1) != PathJoin(a, b2)
  {
    var p1 := PathJoin(a, b1);
    var p2 := PathJoin(a, b2);
    if |a| == 0 || a[|a| - 1] == '/' {
      assert p1[|a|..] == b1 && p2[|a|..] == b2;
    } else {
      assert p1[|a| + 1..] == b1 && p2[|a| + 1..] == b2;
    }
  }

  /** `s` written `n` times in a row. */
  function Repeat(s: string, n: nat): (r: string)
    ensures |r| == n * |s|
  {
    if n == 0 then "" else s + Repeat(s, n - 1)
  }

  /** `n` copies of the string `s`, as a list. */
  function Copies(s: string, n: nat): (r: seq<string>)
    ensures |r| == n && forall i :: 0 <= i < n ==> r[i] == s
  {
    seq(n, _ => s)
  }

  /** Writing `line` followed by `sep`, `n` times, is terminating `n` copies of `line`. */
  lemma {:induction false} RepeatIsTerminated(line: string, sep: char, n: nat)
    ensures Repeat(line + [sep], n) == Terminated(Copies(line, n), sep)
    decreases n
  {
    if n > 0 {
      RepeatIsTerminated(line, sep, n - 1);
      assert Copies(line, n)[1..] == Copies(line, n - 1);
    }
  }

  lemma {:induction false} RepeatSnoc(s: string, n: nat)
    ensures Repeat(s, n + 1) == Repeat(s, n) + s
    decreases n
  {
    if n > 0 {
      RepeatSnoc(s, n - 1);
    }
  }
}
