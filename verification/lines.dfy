/** JavaScript's `String.prototype.split("\n")` and `Array.prototype.join(sep)`
    on strings, the two string primitives the diff, the line counter and the
    log formatter are built on. */
module Lines {

  const NewLine: char := '\n'

  /** `s.split("\n")`: the pieces of `s` between newlines. As in JavaScript the
      empty string splits into one empty line, and a trailing newline yields a
      trailing empty line. */
  function Split(s: string): (lines: seq<string>)
    ensures |lines| >= 1
    ensures forall i :: 0 <= i < |lines| ==> NewLine !in lines[i]
    decreases |s|
  {
    if |s| == 0 then [""]
    else
      var rest := Split(s[1..]);
      if s[0] == NewLine then [""] + rest
      else [[s[0]] + rest[0]] + rest[1..]
  }

  /** `t` is a final segment of `s`. */
  predicate EndsWith(s: string, t: string)
  {
    |t| <= |s| && s[|s| - |t|..] == t
  }

  /** `parts.join(sep)`: the parts with `sep` between neighbours; the empty
      array joins to the empty string. */
  function Join(parts: seq<string>, sep: string): string
  {
    if |parts| == 0 then ""
    else if |parts| == 1 then parts[0]
    else parts[0] + sep + Join(parts[1..], sep)
  }

  /** A join starts with the first part and ends with the last one. */
  lemma {:induction false} JoinEnds(parts: seq<string>, sep: string)
    requires |parts| >= 1
    ensures parts[0] <= Join(parts, sep)
    ensures EndsWith(Join(parts, sep), parts[|parts| - 1])
  {
    if |parts| > 1 {
      JoinEnds(parts[1..], sep);
      var tail := Join(parts[1..], sep);
      var last := parts[|parts| - 1];
      assert Join(parts, sep) == (parts[0] + sep) + tail;
      assert tail[|tail| - |last|..] == last;
    }
  }

  /** Number of occurrences of `c` in `s`. */
  function Count(s: string, c: char): nat
  {
    if |s| == 0 then 0
    else (if s[0] == c then 1 else 0) + Count(s[1..], c)
  }

  /** Joining the lines of a string with a newline gives the string back. */
  lemma {:induction false} JoinSplit(s: string)
    ensures Join(Split(s), [NewLine]) == s
    decreases |s|
  {
    if |s| > 0 {
      var rest := Split(s[1..]);
      JoinSplit(s[1..]);
      if s[0] == NewLine {
        assert Split(s) == [""] + rest;
        assert ([""] + rest)[1..] == rest;
      } else {
        var lines := Split(s);
        assert lines == [[s[0]] + rest[0]] + rest[1..];
        if |rest| == 1 {
          assert lines == [[s[0]] + rest[0]];
        } else {
          assert lines[1..] == rest[1..];
          assert Join(rest, [NewLine]) == rest[0] + [NewLine] + Join(rest[1..], [NewLine]);
        }
        assert s == [s[0]] + s[1..];
      }
    }
  }

  /** Splitting lines that contain no newline after joining them gives the
      lines back, so `Split` and `Join` are inverse on newline-free lines. */
  lemma {:induction false} SplitJoin(lines: seq<string>)
    requires |lines| >= 1
    requires forall i :: 0 <= i < |lines| ==> NewLine !in lines[i]
    ensures Split(Join(lines, [NewLine])) == lines
    decreases |lines|, |lines[0]|
  {
    var line := lines[0];
    if |lines| == 1 {
      SplitNoNewLine(line);
    } else if |line| == 0 {
      var tail := Join(lines[1..], [NewLine]);
      assert Join(lines, [NewLine]) == [NewLine] + tail;
      assert ([NewLine] + tail)[1..] == tail;
      SplitJoin(lines[1..]);
      assert lines == [""] + lines[1..];
    } else {
      var shorter := [line[1..]] + lines[1..];
      assert forall i :: 0 <= i < |shorter| ==> NewLine !in shorter[i] by {
        forall i | 0 <= i < |shorter|
          ensures NewLine !in shorter[i]
        {
          if i == 0 {
            assert forall c :: c in line[1..] ==> c in line;
          } else {
            assert shorter[i] == lines[i];
          }
        }
      }
      SplitJoin(shorter);
      var joined := Join(lines, [NewLine]);
      assert shorter[1..] == lines[1..];
      assert joined == [line[0]] + Join(shorter, [NewLine]);
      assert joined[1..] == Join(shorter, [NewLine]);
      assert line[0] != NewLine by { assert line[0] in line; }
      assert [line[0]] + line[1..] == line;
    }
  }

  lemma {:induction false} SplitNoNewLine(s: string)
    requires NewLine !in s
    ensures Split(s) == [s]
    decreases |s|
  {
    if |s| > 0 {
      assert s[0] in s;
      assert forall c :: c in s[1..] ==> c in s;
      SplitNoNewLine(s[1..]);
      assert [s[0]] + s[1..] == s;
    }
  }

  /** The line count shown for an iteration is one more than its number of
      newlines; in particular it is never zero. */
  lemma {:induction false} SplitLength(s: string)
    ensures |Split(s)| == Count(s, NewLine) + 1
    decreases |s|
  {
    if |s| > 0 {
      SplitLength(s[1..]);
    }
  }
}
