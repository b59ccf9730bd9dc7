/** Blanking out C and C++ comments while leaving string and character literals alone. */
module CommentStripper {
  import opened Wrappers
  import opened Sequences

  datatype State = Code | Literal(quote: char) | LineComment | BlockComment

  predicate IsQuote(c: char) { c == '"' || c == '\'' }

  predicate StartsWith(text: string, a: char, b: char) { |text| >= 2 && text[0] == a && text[1] == b }

  predicate Opens(text: string) { StartsWith(text, '/', '/') || StartsWith(text, '/', '*') }

  function Blank(c: char): char { if c == '\n' then '\n' else ' ' }

  predicate InComment(s: State) { s == LineComment || s == BlockComment }

  /** What the automaton writes for the head of the text, and the state it goes to. */
  function Step(text: string, s: State): (r: (string, State))
    requires text != ""
    ensures 1 <= |r.0| <= |text|
  {
    match s
    case Code =>
      if StartsWith(text, '/', '/') then ("  ", LineComment)
      else if StartsWith(text, '/', '*') then ("  ", BlockComment)
      else ([text[0]], if IsQuote(text[0]) then Literal(text[0]) else Code)
    case Literal(quote) =>
      if text[0] == '\\' && |text| >= 2 then (text[..2], s)
      else ([text[0]], if text[0] == quote then Code else s)
    case LineComment => ([Blank(text[0])], if text[0] == '\n' then Code else s)
    case BlockComment =>
      if StartsWith(text, '*', '/') then ("  ", Code) else ([Blank(text[0])], s)
  }

  /** The whole text written out, and the state the automaton ends in. */
  function Scan(text: string, s: State): (r: (string, State))
    ensures |r.0| == |text|
  {
    if text == "" then ("", s)
    else
      var (head, next) := Step(text, s);
      var (rest, last) := Scan(text[|head|..], next);
      (head + rest, last)
  }

  function Stripped(text: string): Option<string> {
    var (out, last) := Scan(text, Code);
    if last == BlockComment then None else Some(out)
  }

  lemma ScanSteps(text: string, s: State)
    requires text != ""
    ensures var (head, next) := Step(text, s); var rest := Scan(text[|head|..], next);
      Scan(text, s) == (head + rest.0, rest.1)
  {
  }

  /** One pass through the loop: what it appends and the state it leaves. */
  method Pass(text: string, index: nat, state: State) returns (emitted: string, next: State)
    requires index < |text|
    ensures (emitted, next) == Step(text[index..], state)
  {
    var c := text[index];
    var following := if index + 1 < |text| then text[index + 1..index + 2] else "";
    assert |text[index..]| >= 2 ==> text[index..][..2] == [c] + following;
    next := state;
    match state {
      case Code =>
        if c == '/' && following == "/" { return "  ", LineComment; }
        if c == '/' && following == "*" { return "  ", BlockComment; }
        emitted := [c];
        if IsQuote(c) { next := Literal(c); }
      case Literal(quote) =>
        emitted := [c];
        if c == '\\' && following != "" {
          emitted := emitted + following;
        } else if c == quote {
          next := Code;
        }
      case LineComment =>
        if c == '\n' { return "\n", Code; }
        emitted := " ";
      case BlockComment =>
        if c == '*' && following == "/" { return "  ", Code; }
        emitted := [if c == '\n' then '\n' else ' '];
    }
  }

  /** What comes out after `output`, with the tail still to be read. */
  function Continued(output: string, tail: string, state: State): (string, State) {
    (output + Scan(tail, state).0, Scan(tail, state).1)
  }

  /** strip_cpp_comments. */
  method StripComments(text: string) returns (stripped: Option<string>)
    ensures stripped == Stripped(text)
  {
    var output: string := "";
    var index := 0;
    var state := Code;
    ghost var tail, result := text, Scan(text, Code);
    assert output + result.0 == result.0 && text[0..] == text;
    while index < |text|
      invariant index <= |text| && tail == text[index..]
      invariant Continued(output, tail, state) == result
    {
      var emitted, next := Pass(text, index, state);
      Advance(output, tail, state, emitted, next);
      DropDrop(text, index, |emitted|);
      tail := tail[|emitted|..];
      output, index, state := output + emitted, index + |emitted|, next;
    }
    assert tail == "" && output + "" == output;
    return if state == BlockComment then None else Some(output);
  }

  lemma Advance(output: string, tail: string, state: State, emitted: string, next: State)
    requires tail != "" && (emitted, next) == Step(tail, state)
    ensures Continued(output + emitted, tail[|emitted|..], next) == Continued(output, tail, state)
  {
    ScanSteps(tail, state);
    Associative(output, emitted, Scan(tail[|emitted|..], next).0);
  }

  // ---------- what is written ----------

  /** The output differs from the text only in blanks, and keeps every line break. */
  lemma {:induction false} OnlyBlanks(text: string, s: State, i: nat)
    requires i < |text|
    ensures var out := Scan(text, s).0;
      && (out[i] == text[i] || out[i] == ' ')
      && (out[i] == '\n' <==> text[i] == '\n')
  {
    ScanSteps(text, s);
    var (head, next) := Step(text, s);
    if i >= |head| { OnlyBlanks(text[|head|..], next, i - |head|); }
  }

  /** The text left when the step that covers position `i` is taken, and its state. */
  function Covering(text: string, s: State, i: nat): (r: (string, State))
    requires i < |text|
    ensures |text| - i <= |r.0| <= |text|
  {
    var (head, next) := Step(text, s);
    if i < |head| then (text, s) else Covering(text[|head|..], next, i - |head|)
  }

  /** What is written for a character of a step that starts with `tail` in a state. */
  function Written(tail: string, at: State, c: char): char {
    if InComment(at) || (at == Code && Opens(tail)) then Blank(c) else c
  }

  lemma StepWrites(text: string, s: State, i: nat)
    requires text != "" && i < |Step(text, s).0|
    ensures Step(text, s).0[i] == Written(text, s, text[i])
  {
  }

  /** Position by position: comments and their delimiters are blanked, literals and all
      other code are kept. */
  lemma {:induction false} PositionsExactly(text: string, s: State, i: nat)
    requires i < |text|
    ensures var (tail, at) := Covering(text, s, i); Scan(text, s).0[i] == Written(tail, at, text[i])
    decreases i
  {
    if i < |Step(text, s).0| {
      ScanSteps(text, s);
      StepWrites(text, s, i);
    } else {
      PastHead(text, s, i);
      PositionsExactly(text[|Step(text, s).0|..], Step(text, s).1, i - |Step(text, s).0|);
    }
  }

  /** Past its first step a text is scanned as its tail is. */
  lemma PastHead(text: string, s: State, i: nat)
    requires i < |text| && |Step(text, s).0| <= i
    ensures var (head, next) := Step(text, s); Scan(text, s).0[i] == Scan(text[|head|..], next).0[i - |head|]
  {
    ScanSteps(text, s);
    ConcatAt(Step(text, s).0, Scan(text[|Step(text, s).0|..], Step(text, s).1).0, i);
  }

  lemma ConcatAt(a: string, b: string, i: nat)
    requires |a| <= i < |a| + |b|
    ensures (a + b)[i] == b[i - |a|]
  {
  }

  lemma DropDrop(text: string, m: nat, n: nat)
    requires m + n <= |text|
    ensures text[m..][n..] == text[m + n..]
  {
  }

  // ---------- no comment is left ----------

  /** Some comment opens in a text read as code and literals only. */
  predicate HasOpener(text: string, s: State)
    requires !InComment(s)
  {
    text != "" &&
    ((s == Code && Opens(text)) ||
     (!(s == Code && Opens(text)) && var (head, next) := Step(text, s); HasOpener(text[|head|..], next)))
  }

  /** Without an opener the automaton copies, and with one it does not. */
  lemma {:induction false} CopiesExactly(text: string, s: State)
    requires !InComment(s)
    ensures Scan(text, s).0 == text <==> !HasOpener(text, s)
    ensures !HasOpener(text, s) ==> !InComment(Scan(text, s).1)
  {
    if text != "" {
      ScanSteps(text, s);
      var (head, next) := Step(text, s);
      if s == Code && Opens(text) {
        assert Scan(text, s).0[0] == ' ' && text[0] == '/';
      } else {
        CopiesExactly(text[|head|..], next);
        assert head == text[..|head|] && text == head + text[|head|..];
        assert Scan(text, s).0[|head|..] == Scan(text[|head|..], next).0;
      }
    }
  }

  /** The state in which code would be read after the output so far. */
  function Visible(s: State): State { if InComment(s) then Code else s }

  /** Blanks ahead keep what follows from opening anything with them. */
  lemma {:induction false} BlanksAhead(blanks: string, rest: string)
    requires forall i :: 0 <= i < |blanks| ==> blanks[i] == ' ' || blanks[i] == '\n'
    ensures HasOpener(blanks + rest, Code) <==> HasOpener(rest, Code)
  {
    if blanks == "" {
      assert blanks + rest == rest;
    } else {
      BlanksAhead(blanks[1..], rest);
      assert (blanks + rest)[1..] == blanks[1..] + rest;
    }
  }

  /** A blanked step leaves code to be read on. */
  lemma BlankedStep(text: string, s: State)
    requires text != "" && (InComment(s) || (s == Code && Opens(text)))
    ensures Visible(s) == Visible(Step(text, s).1) == Code
    ensures forall i :: 0 <= i < |Step(text, s).0| ==> Step(text, s).0[i] == ' ' || Step(text, s).0[i] == '\n'
  {
  }

  lemma {:induction false} NoOpenerLeft(text: string, s: State)
    ensures !HasOpener(Scan(text, s).0, Visible(s))
    decreases |text|
  {
    if text != "" {
      var (head, next) := Step(text, s);
      NoOpenerLeft(text[|head|..], next);
      if InComment(s) || (s == Code && Opens(text)) {
        ScanSteps(text, s);
        BlankedStep(text, s);
        BlanksAhead(head, Scan(text[|head|..], next).0);
      } else {
        CopiedStep(text, s);
      }
    }
  }

  /** A copied step is the same step in the output. */
  lemma CopiedStep(text: string, s: State)
    requires text != "" && !InComment(s) && !(s == Code && Opens(text))
    requires var (head, next) := Step(text, s); !HasOpener(Scan(text[|head|..], next).0, Visible(next))
    ensures !HasOpener(Scan(text, s).0, Visible(s))
  {
    var (head, next) := Step(text, s);
    var out := Scan(text, s).0;
    ScanSteps(text, s);
    assert out[|head|..] == Scan(text[|head|..], next).0;
    if s == Code {
      if |text| >= 2 { NoSlashAfterSlash(text); }
      assert !Opens(out);
    }
    assert Step(out, s) == (head, next);
  }

  /** The character after a copied slash neither was nor becomes a slash or a star. */
  lemma NoSlashAfterSlash(text: string)
    requires |text| >= 2 && !Opens(text)
    ensures !Opens(Scan(text, Code).0)
  {
    OnlyBlanks(text, Code, 0);
    OnlyBlanks(text, Code, 1);
  }

  /** The result, whenever there is one, holds no comment opener outside literals, and
      stripping it again changes nothing. */
  lemma StrippedIsClean(text: string)
    requires Stripped(text).Some?
    ensures !HasOpener(Stripped(text).value, Code)
    ensures Stripped(Stripped(text).value) == Stripped(text)
  {
    NoOpenerLeft(text, Code);
    CopiesExactly(Stripped(text).value, Code);
  }

  /** A text comes out unchanged exactly when it holds no opener. */
  lemma UnchangedExactly(text: string)
    ensures Stripped(text) == Some(text) <==> !HasOpener(text, Code)
  {
    CopiesExactly(text, Code);
  }

  // ---------- the error ----------

  ghost predicate Closes(text: string, from: nat) {
    exists j :: from <= j < |text| && StartsWith(text[j..], '*', '/')
  }

  /** A block comment opens at `i` in code and never closes. */
  ghost predicate Unterminated(text: string, s: State, i: nat) {
    && i < |text| && |Covering(text, s, i).0| == |text| - i && Covering(text, s, i).1 == Code
    && StartsWith(text[i..], '/', '*') && !Closes(text, i + 2)
  }

  lemma ClosesShift(text: string, n: nat, from: nat)
    requires n <= |text|
    ensures Closes(text[n..], from) <==> Closes(text, from + n)
  {
    var rest := text[n..];
    forall j | 0 <= j < |rest| ensures rest[j..] == text[j + n..] {
    }
    if Closes(rest, from) {
      var j :| from <= j < |rest| && StartsWith(rest[j..], '*', '/');
      assert StartsWith(text[j + n..], '*', '/');
    }
    if Closes(text, from + n) {
      var j :| from + n <= j < |text| && StartsWith(text[j..], '*', '/');
      assert StartsWith(rest[j - n..], '*', '/');
    }
  }

  lemma UnterminatedShift(text: string, s: State, i: nat)
    requires text != "" && i >= |Step(text, s).0|
    ensures var (head, next) := Step(text, s);
      Unterminated(text[|head|..], next, i - |head|) <==> Unterminated(text, s, i)
  {
    var (head, next) := Step(text, s);
    ClosesShift(text, |head|, i - |head| + 2);
    if i < |text| { assert text[|head|..][i - |head|..] == text[i..]; }
  }

  ghost predicate SomeUnterminated(text: string, s: State) { exists i :: Unterminated(text, s, i) }

  /** Where a block comment is left open, after the head of the text is read. */
  lemma UnterminatedStep(text: string, s: State)
    requires text != ""
    ensures var (head, next) := Step(text, s);
      SomeUnterminated(text, s) <==> Unterminated(text, s, 0) || SomeUnterminated(text[|head|..], next)
  {
    var (head, next) := Step(text, s);
    if i: nat :| Unterminated(text, s, i) {
      if i > 0 {
        assert i >= |head|;
        UnterminatedShift(text, s, i);
      }
    }
    if k: nat :| Unterminated(text[|head|..], next, k) {
      UnterminatedShift(text, s, k + |head|);
    }
  }

  /** The open block comment at the head, or the one already open. */
  lemma OpenStep(text: string, s: State)
    requires text != ""
    ensures var (head, next) := Step(text, s);
      (s == BlockComment && !Closes(text, 0)) || Unterminated(text, s, 0) <==>
        next == BlockComment && !Closes(text[|head|..], 0)
  {
    var (head, next) := Step(text, s);
    assert text[0..] == text;
    ClosesShift(text, |head|, 0);
    if s == BlockComment {
      if StartsWith(text, '*', '/') {
        assert Closes(text, 0) by { assert StartsWith(text[0..], '*', '/'); }
      } else if Closes(text, 0) {
        var j :| 0 <= j < |text| && StartsWith(text[j..], '*', '/');
        assert j >= 1;
      }
    }
  }

  /** Rejection is exact: some block comment, opened in code, is never closed. */
  lemma {:induction false} RejectedExactly(text: string, s: State)
    ensures Scan(text, s).1 == BlockComment <==> (s == BlockComment && !Closes(text, 0)) || SomeUnterminated(text, s)
    decreases |text|
  {
    if text != "" {
      ScanSteps(text, s);
      var (head, next) := Step(text, s);
      RejectedExactly(text[|head|..], next);
      UnterminatedStep(text, s);
      OpenStep(text, s);
    }
  }

  /** A text is refused exactly if a block comment in it is never closed; an unfinished
      literal or line comment is no reason. */
  lemma RefusedExactly(text: string)
    ensures Stripped(text) == None <==> SomeUnterminated(text, Code)
  {
    RejectedExactly(text, Code);
  }

  // ---------- texts made of tokens ----------

  /** Code, a literal, or a comment. */
  datatype Token = Plain(c: char) | Quoted(quote: char, body: string) | ToLineEnd(body: string) | Block(body: string)

  /** The inside of a literal: escaped pairs and characters other than the quote. */
  predicate LiteralBody(body: string, quote: char) {
    body == "" ||
    (if body[0] == '\\' then |body| >= 2 && LiteralBody(body[2..], quote)
     else body[0] != quote && LiteralBody(body[1..], quote))
  }

  ghost predicate WellFormed(t: Token) {
    match t
    case Plain(c) => !IsQuote(c)
    case Quoted(quote, body) => IsQuote(quote) && LiteralBody(body, quote)
    case ToLineEnd(body) => '\n' !in body
    case Block(body) => !Closes(body, 0)
  }

  function TextOf(t: Token): string {
    match t
    case Plain(c) => [c]
    case Quoted(quote, body) => [quote] + (body + [quote])
    case ToLineEnd(body) => "//" + (body + "\n")
    case Block(body) => "/*" + (body + "*/")
  }

  function Blanks(body: string): (r: string)
    ensures |r| == |body|
  {
    if body == "" then "" else [Blank(body[0])] + Blanks(body[1..])
  }

  /** What should be left of a token. */
  function Shown(t: Token): string {
    match t
    case ToLineEnd(body) => "  " + (Blanks(body) + "\n")
    case Block(body) => "  " + (Blanks(body) + "  ")
    case _ => TextOf(t)
  }

  function Joined(tokens: seq<Token>): string { if tokens == [] then "" else TextOf(tokens[0]) + Joined(tokens[1..]) }

  function ShownAll(tokens: seq<Token>): string {
    if tokens == [] then "" else Shown(tokens[0]) + ShownAll(tokens[1..])
  }

  /** No slash of the code runs into a slash or a star that follows it. */
  predicate Apart(t: Token, rest: string) { t == Plain('/') && rest != "" ==> rest[0] != '/' && rest[0] != '*' }

  ghost predicate Tokens(tokens: seq<Token>) {
    tokens != [] ==> WellFormed(tokens[0]) && Apart(tokens[0], Joined(tokens[1..])) && Tokens(tokens[1..])
  }

  lemma Cut(head: string, body: string, tail: string)
    requires |head| <= |body| && body == head + body[|head|..]
    ensures (body + tail)[|head|..] == body[|head|..] + tail && (body + tail)[..|head|] == head
    ensures forall x: string :: head + (body[|head|..] + x) == body + x
  {
  }

  /** One step that passes over the head of a body. */
  lemma PassedHead(head: string, body: string, tail: string, s: State, done: string)
    requires head != "" && |head| <= |body| && body == head + body[|head|..]
    requires Step(body + tail, s) == (done, s) && |done| == |head|
    ensures var r := Scan(body[|head|..] + tail, s); Scan(body + tail, s) == (done + r.0, r.1)
  {
    Cut(head, body, tail);
    ScanSteps(body + tail, s);
  }

  function PairLength(body: string): (n: nat)
    requires body != ""
  {
    if body[0] == '\\' then 2 else 1
  }

  lemma LiteralStep(body: string, quote: char, tail: string)
    requires IsQuote(quote) && LiteralBody(body, quote) && body != ""
    ensures var n := PairLength(body);
      n <= |body| && LiteralBody(body[n..], quote) && Step(body + tail, Literal(quote)) == (body[..n], Literal(quote))
  {
    var n := PairLength(body);
    assert (body + tail)[..n] == body[..n];
    assert body[..1] == [body[0]];
  }

  lemma {:induction false} LiteralPassed(body: string, quote: char, tail: string)
    requires IsQuote(quote) && LiteralBody(body, quote)
    ensures var r := Scan(tail, Literal(quote)); Scan(body + tail, Literal(quote)) == (body + r.0, r.1)
    decreases |body|
  {
    var s, r := Literal(quote), Scan(tail, Literal(quote));
    if body == "" {
      assert body + tail == tail && body + r.0 == r.0;
    } else {
      var n := PairLength(body);
      LiteralStep(body, quote, tail);
      assert body == body[..n] + body[n..];
      LiteralPassed(body[n..], quote, tail);
      PassedHead(body[..n], body, tail, s, body[..n]);
      Cut(body[..n], body, r.0);
    }
  }

  lemma {:induction false} LinePassed(body: string, tail: string)
    requires '\n' !in body
    ensures var r := Scan(tail, LineComment); Scan(body + tail, LineComment) == (Blanks(body) + r.0, r.1)
  {
    var r := Scan(tail, LineComment);
    if body == "" {
      assert body + tail == tail && Blanks(body) + r.0 == r.0;
    } else {
      assert body == [body[0]] + body[1..];
      LinePassed(body[1..], tail);
      PassedHead([body[0]], body, tail, LineComment, [Blank(body[0])]);
      assert [Blank(body[0])] + (Blanks(body[1..]) + r.0) == Blanks(body) + r.0;
    }
  }

  lemma BlockOpen(body: string, tail: string)
    requires body != "" && !Closes(body, 0) && StartsWith(tail, '*', '/')
    ensures !Closes(body[1..], 0) && Step(body + tail, BlockComment) == ([Blank(body[0])], BlockComment)
  {
    ClosesShift(body, 1, 0);
    assert body[0..] == body;
    assert |body| >= 2 ==> !StartsWith(body[0..], '*', '/');
  }

  lemma {:induction false} BlockPassed(body: string, tail: string)
    requires !Closes(body, 0) && StartsWith(tail, '*', '/')
    ensures var r := Scan(tail, BlockComment); Scan(body + tail, BlockComment) == (Blanks(body) + r.0, r.1)
  {
    var r := Scan(tail, BlockComment);
    if body == "" {
      assert body + tail == tail && Blanks(body) + r.0 == r.0;
    } else {
      assert body == [body[0]] + body[1..];
      BlockOpen(body, tail);
      BlockPassed(body[1..], tail);
      PassedHead([body[0]], body, tail, BlockComment, [Blank(body[0])]);
      assert [Blank(body[0])] + (Blanks(body[1..]) + r.0) == Blanks(body) + r.0;
    }
  }

  /** The step that opens a token in code, or takes it whole. */
  lemma Opened(open: string, rest: string, shown: string, next: State)
    requires open != "" && Step(open + rest, Code) == (shown, next) && |shown| == |open|
    ensures Scan(open + rest, Code) == (shown + Scan(rest, next).0, Scan(rest, next).1)
  {
    ScanSteps(open + rest, Code);
    assert (open + rest)[|open|..] == rest;
  }

  /** The step that closes one. */
  lemma Closed(close: string, rest: string, shown: string, s: State)
    requires close != "" && Step(close + rest, s) == (shown, Code) && |shown| == |close|
    ensures Scan(close + rest, s) == (shown + Scan(rest, Code).0, Scan(rest, Code).1)
  {
    ScanSteps(close + rest, s);
    assert (close + rest)[|close|..] == rest;
  }

  /** The three parts of a literal or a comment, put together either way. */
  lemma Sandwich(a: string, b: string, c: string, d: string)
    ensures (a + (b + c)) + d == a + (b + (c + d))
  {
  }

  lemma QuotedScanned(quote: char, body: string, rest: string)
    requires IsQuote(quote) && LiteralBody(body, quote)
    ensures var t := [quote] + (body + [quote]); Scan(t + rest, Code) == (t + Scan(rest, Code).0, Scan(rest, Code).1)
  {
    Sandwich([quote], body, [quote], rest);
    Sandwich([quote], body, [quote], Scan(rest, Code).0);
    Opened([quote], body + ([quote] + rest), [quote], Literal(quote));
    LiteralPassed(body, quote, [quote] + rest);
    Closed([quote], rest, [quote], Literal(quote));
  }

  /** Single and double quotes delimit literals, and nothing else does. */
  lemma QuotesAre(c: char)
    ensures IsQuote(c) <==> c as int == 0x22 || c as int == 0x27
  {
  }

  /** Between two single or two double quotes nothing is a comment. */
  lemma MarksInQuotes(quote: char, body: string)
    requires (quote == '\'' || quote == '"') && quote !in body && '\\' !in body
    ensures Stripped([quote] + (body + [quote])) == Some([quote] + (body + [quote]))
  {
    PlainBody(quote, body);
    QuotedScanned(quote, body, "");
    var t := [quote] + (body + [quote]);
    assert t + "" == t;
  }

  lemma {:induction false} PlainBody(quote: char, body: string)
    requires quote !in body && '\\' !in body
    ensures LiteralBody(body, quote)
  {
    if body != "" { PlainBody(quote, body[1..]); }
  }

  lemma LineScanned(body: string, rest: string)
    requires '\n' !in body
    ensures Scan(TextOf(ToLineEnd(body)) + rest, Code)
              == (Shown(ToLineEnd(body)) + Scan(rest, Code).0, Scan(rest, Code).1)
  {
    Sandwich("//", body, "\n", rest);
    Sandwich("  ", Blanks(body), "\n", Scan(rest, Code).0);
    Opened("//", body + ("\n" + rest), "  ", LineComment);
    LinePassed(body, "\n" + rest);
    Closed("\n", rest, "\n", LineComment);
  }

  lemma BlockScanned(body: string, rest: string)
    requires !Closes(body, 0)
    ensures Scan(TextOf(Block(body)) + rest, Code) == (Shown(Block(body)) + Scan(rest, Code).0, Scan(rest, Code).1)
  {
    Sandwich("/*", body, "*/", rest);
    Sandwich("  ", Blanks(body), "  ", Scan(rest, Code).0);
    Opened("/*", body + ("*/" + rest), "  ", BlockComment);
    BlockPassed(body, "*/" + rest);
    Closed("*/", rest, "  ", BlockComment);
  }

  lemma TokenScanned(t: Token, rest: string)
    requires WellFormed(t) && Apart(t, rest)
    ensures Scan(TextOf(t) + rest, Code) == (Shown(t) + Scan(rest, Code).0, Scan(rest, Code).1)
  {
    match t {
      case Plain(c) => Opened([c], rest, [c], Code);
      case Quoted(quote, body) => QuotedScanned(quote, body, rest);
      case ToLineEnd(body) => LineScanned(body, rest);
      case Block(body) => BlockScanned(body, rest);
    }
  }

  /** A text put together from code, literals and comments comes out with exactly its
      comments blanked, whatever escapes and comment marks its literals hold. */
  lemma {:induction false} TokensStripped(tokens: seq<Token>)
    requires Tokens(tokens)
    ensures Scan(Joined(tokens), Code) == (ShownAll(tokens), Code)
    ensures Stripped(Joined(tokens)) == Some(ShownAll(tokens))
  {
    if tokens != [] {
      TokensStripped(tokens[1..]);
      TokenScanned(tokens[0], Joined(tokens[1..]));
    }
  }
}
