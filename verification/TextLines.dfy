/** Text files as lines: splitting at newlines and joining back. */
module TextLines {
  const NEWLINE := '\n'

  function SplitLines(text: string): seq<string> {
    if text == "" then []
    else
      var n := LineEnd(text);
      [text[..n]] + (if n == |text| then [] else SplitLines(text[n + 1..]))
  }

  /** Where the first line ends. */
  function LineEnd(text: string): (n: nat)
    ensures n <= |text| && NEWLINE !in text[..n] && (n < |text| ==> text[n] == NEWLINE)
  {
    if text == "" || text[0] == NEWLINE then 0
    else
      var n := 1 + LineEnd(text[1..]);
      assert text[..n] == [text[0]] + text[1..][..n - 1];
      n
  }

  lemma {:induction false} LineEndAt(line: string, rest: string)
    requires NEWLINE !in line
    ensures LineEnd(line + [NEWLINE] + rest) == |line|
  {
    var text := line + [NEWLINE] + rest;
    if line != "" {
      assert text[1..] == line[1..] + [NEWLINE] + rest;
      LineEndAt(line[1..], rest);
    }
  }

  /** '\n'.join(lines). */
  function Join(lines: seq<string>): string {
    if lines == [] then ""
    else if |lines| == 1 then lines[0]
    else Join(lines[..|lines| - 1]) + [NEWLINE] + lines[|lines| - 1]
  }

  predicate NoNewlines(lines: seq<string>) { forall i :: 0 <= i < |lines| ==> NEWLINE !in lines[i] }

  lemma JoinSnoc(lines: seq<string>, x: string)
    ensures Join(lines + [x]) == if lines == [] then x else Join(lines) + [NEWLINE] + x
  {
    assert (lines + [x])[..|lines|] == lines;
  }

  lemma Regroup<T>(a: seq<T>, b: seq<T>, c: seq<T>, d: seq<T>, e: seq<T>)
    ensures (a + b + c) + d + e == a + b + (c + d + e)
  {
  }

  lemma {:induction false} JoinAppend(a: seq<string>, b: seq<string>)
    requires a != [] && b != []
    ensures Join(a + b) == Join(a) + [NEWLINE] + Join(b)
    decreases |b|
  {
    var front, last := b[..|b| - 1], b[|b| - 1];
    assert b == front + [last];
    JoinSnoc(front, last);
    assert a + b == (a + front) + [last];
    JoinSnoc(a + front, last);
    if front == [] {
      assert a + front == a;
    } else {
      JoinAppend(a, front);
      Regroup(Join(a), [NEWLINE], Join(front), [NEWLINE], last);
    }
  }

  /** A text in which every line ends in a newline. */
  function Terminated(lines: seq<string>): string {
    if lines == [] then "" else lines[0] + [NEWLINE] + Terminated(lines[1..])
  }

  lemma {:induction false} SplitTerminated(lines: seq<string>)
    requires NoNewlines(lines)
    ensures SplitLines(Terminated(lines)) == lines
  {
    if lines != [] {
      var line, rest := lines[0], Terminated(lines[1..]);
      LineEndAt(line, rest);
      var text := Terminated(lines);
      assert text[..|line|] == line && text[|line| + 1..] == rest;
      SplitTerminated(lines[1..]);
    }
  }

  /** Joining and adding the final newline terminates every line. */
  lemma {:induction false} JoinTerminates(lines: seq<string>)
    requires lines != []
    ensures Join(lines) + [NEWLINE] == Terminated(lines)
  {
    if |lines| > 1 {
      JoinTerminates(lines[1..]);
      assert [lines[0]] + lines[1..] == lines;
      JoinAppend([lines[0]], lines[1..]);
    }
  }

  /** A joined text without a final newline splits into the same lines, unless the last
      of them is empty. */
  lemma {:induction false} SplitJoined(lines: seq<string>)
    requires NoNewlines(lines) && (lines != [] ==> lines[|lines| - 1] != "")
    ensures SplitLines(Join(lines)) == lines
  {
    if |lines| == 1 {
      LineEndWhole(lines[0]);
      assert lines == [lines[0]] && lines[0][..|lines[0]|] == lines[0];
    } else if lines != [] {
      assert [lines[0]] + lines[1..] == lines;
      JoinAppend([lines[0]], lines[1..]);
      LineEndAt(lines[0], Join(lines[1..]));
      var text := Join(lines);
      assert text == lines[0] + [NEWLINE] + Join(lines[1..]);
      assert text[..|lines[0]|] == lines[0] && text[|lines[0]| + 1..] == Join(lines[1..]);
      SplitJoined(lines[1..]);
    }
  }

  lemma {:induction false} LineEndWhole(line: string)
    requires NEWLINE !in line
    ensures LineEnd(line) == |line|
  {
    if line != "" { LineEndWhole(line[1..]); }
  }
}
