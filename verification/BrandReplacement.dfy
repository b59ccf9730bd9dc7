/**
 * Replacing the legacy brand in three spellings: one script replaces them one after the
 * other, another matches all casings in a single pass.
 */
module BrandReplacement {
  const UPPER := "HELIUM"
  const TITLE := "Helium"
  const LOWER := "helium"

  /** What becomes of each spelling. */
  function NewFor(token: string): string {
    if token == UPPER then "FOCUS" else if token == TITLE then "Focus" else "focus"
  }

  predicate IsToken(t: string) { t == UPPER || t == TITLE || t == LOWER }

  predicate Starts(s: string, t: string) { |t| <= |s| && forall i :: 0 <= i < |t| ==> s[i] == t[i] }

  lemma StartsTail(s: string, t: string)
    requires t != ""
    ensures Starts(s, t) <==> s != "" && s[0] == t[0] && Starts(s[1..], t[1..])
  {
    if s != "" && s[0] == t[0] && Starts(s[1..], t[1..]) {
      assert forall i :: 1 <= i < |t| ==> s[i] == s[1..][i - 1] && t[i] == t[1..][i - 1];
    }
  }

  lemma Cons(p: string, s: string)
    requires p != ""
    ensures (p + s)[0] == p[0] && (p + s)[1..] == p[1..] + s && [p[0]] + (p[1..] + s) == p + s
  {
  }

  /** data.replace(token, new), left to right. */
  function Replace(s: string, token: string): string
    requires IsToken(token)
  {
    if s == "" then ""
    else if Starts(s, token) then NewFor(token) + Replace(s[|token|..], token)
    else [s[0]] + Replace(s[1..], token)
  }

  /** The replacements in the order of the table. */
  function Sequential(s: string): string { Replace(Replace(Replace(s, UPPER), TITLE), LOWER) }

  /** The spelling a text starts with, if any. */
  function HeadToken(s: string): (t: string)
    ensures t == "" || (IsToken(t) && Starts(s, t))
    ensures t == "" ==> !Starts(s, UPPER) && !Starts(s, TITLE) && !Starts(s, LOWER)
  {
    if Starts(s, UPPER) then UPPER else if Starts(s, TITLE) then TITLE else if Starts(s, LOWER) then LOWER else ""
  }

  /** All three spellings in one pass. */
  function Simultaneous(s: string): string
    decreases |s|
  {
    if s == "" then ""
    else
      var t := HeadToken(s);
      if t == "" then [s[0]] + Simultaneous(s[1..]) else NewFor(t) + Simultaneous(s[|t|..])
  }

  predicate Avoids(s: string, c: char) { forall i :: 0 <= i < |s| ==> s[i] != c }

  /** A stretch without the token's first letter is passed over. */
  lemma {:induction false} PassOver(p: string, s: string, token: string)
    requires IsToken(token) && Avoids(p, token[0])
    ensures Replace(p + s, token) == p + Replace(s, token)
  {
    if p == "" {
      assert p + s == s && p + Replace(s, token) == Replace(s, token);
    } else {
      PassOver(p[1..], s, token);
      Cons(p, s);
      Cons(p, Replace(s, token));
    }
  }

  /** So is a different spelling. */
  lemma PassToken(other: string, s: string, token: string)
    requires IsToken(token) && IsToken(other) && other != token
    ensures Replace(other + s, token) == other + Replace(s, token)
  {
    Cons(other, s);
    PassOver(other[1..], s, token);
    Cons(other, Replace(s, token));
    assert !Starts(other + s, token) by {
      assert forall i :: 0 <= i < 6 ==> (other + s)[i] == other[i];
    }
  }

  /** Text with none of the letters a replacement starts with was there before. */
  lemma {:induction false} StartsBefore(s: string, w: string, token: string)
    requires IsToken(token) && Starts(Replace(s, token), w) && Avoids(w, 'F') && Avoids(w, 'f')
    ensures Starts(s, w)
    decreases |w|
  {
    if w != "" {
      var r := Replace(s, token);
      StartsTail(r, w);
      if !Starts(s, token) {
        assert r[1..] == Replace(s[1..], token);
        StartsBefore(s[1..], w[1..], token);
        StartsTail(s, w);
      }
    }
  }

  /** A head that starts no token keeps starting none while the rest is replaced. */
  lemma HeadStays(c: char, s: string, token: string, other: string)
    requires IsToken(token) && IsToken(other) && !Starts([c] + s, other)
    ensures !Starts([c] + Replace(s, token), other)
  {
    var r := [c] + Replace(s, token);
    StartsTail(r, other);
    StartsTail([c] + s, other);
    assert r[1..] == Replace(s, token) && ([c] + s)[1..] == s;
    if Starts(r, other) { StartsBefore(s, other[1..], token); }
  }

  lemma ReplaceToken(s: string, token: string)
    requires IsToken(token)
    ensures Replace(token + s, token) == NewFor(token) + Replace(s, token)
  {
    assert (token + s)[|token|..] == s;
  }

  /** A spelling at the head is replaced by its own pass and left alone by the others. */
  lemma SequentialToken(t: string, s: string)
    requires IsToken(t)
    ensures Sequential(t + s) == NewFor(t) + Sequential(s)
  {
    var first := Replace(s, UPPER);
    var second := Replace(first, TITLE);
    if t == UPPER {
      ReplaceToken(s, UPPER);
      PassOver(NewFor(t), first, TITLE);
      PassOver(NewFor(t), second, LOWER);
    } else {
      PassToken(t, s, UPPER);
      if t == TITLE {
        ReplaceToken(first, TITLE);
        PassOver(NewFor(t), second, LOWER);
      } else {
        PassToken(t, first, TITLE);
        ReplaceToken(second, LOWER);
      }
    }
  }

  lemma SequentialHead(c: char, s: string)
    requires HeadToken([c] + s) == ""
    ensures Sequential([c] + s) == [c] + Sequential(s)
  {
    var first := Replace(s, UPPER);
    var second := Replace(first, TITLE);
    HeadStays(c, s, UPPER, TITLE);
    HeadStays(c, s, UPPER, LOWER);
    HeadStays(c, first, TITLE, LOWER);
  }

  /** Replacing the spellings one after the other is replacing them all at once. */
  lemma {:induction false} SequentialIsSimultaneous(s: string)
    ensures Sequential(s) == Simultaneous(s)
    decreases |s|
  {
    if s != "" {
      var t := HeadToken(s);
      if t == "" {
        SequentialIsSimultaneous(s[1..]);
        assert s == [s[0]] + s[1..];
        SequentialHead(s[0], s[1..]);
      } else {
        SequentialIsSimultaneous(s[|t|..]);
        assert s == t + s[|t|..];
        SequentialToken(t, s[|t|..]);
      }
    }
  }

  // ---------- nothing is left ----------

  /** Some spelling occurs somewhere. */
  predicate Occurs(s: string) { s != "" && (HeadToken(s) != "" || Occurs(s[1..])) }

  lemma {:induction false} OccursPast(p: string, s: string)
    requires Avoids(p, 'H') && Avoids(p, 'h')
    ensures Occurs(p + s) <==> Occurs(s)
  {
    if p == "" {
      assert p + s == s;
    } else {
      Cons(p, s);
      OccursPast(p[1..], s);
    }
  }

  lemma {:induction false} SimultaneousStarts(s: string, w: string)
    requires Starts(Simultaneous(s), w) && Avoids(w, 'F') && Avoids(w, 'f')
    ensures Starts(s, w)
    decreases |w|
  {
    if w != "" {
      var r := Simultaneous(s);
      StartsTail(r, w);
      assert HeadToken(s) == "";
      assert r[1..] == Simultaneous(s[1..]);
      SimultaneousStarts(s[1..], w[1..]);
      StartsTail(s, w);
    }
  }

  lemma NewPlain(t: string, rest: string)
    requires IsToken(t)
    ensures Occurs(NewFor(t) + rest) <==> Occurs(rest)
  {
    OccursPast(NewFor(t), rest);
  }

  lemma OccursTail(s: string)
    requires s != "" && HeadToken(s) == ""
    ensures Occurs(s) <==> Occurs(s[1..])
  {
  }

  lemma HeadStaysPlain(s: string)
    requires s != "" && HeadToken(s) == ""
    ensures HeadToken(Simultaneous(s)) == "" && Simultaneous(s)[1..] == Simultaneous(s[1..])
  {
    var t := HeadToken(Simultaneous(s));
    if t != "" { SimultaneousStarts(s, t); }
  }

  /** None of the three spellings is left. */
  lemma {:induction false} NoneLeft(s: string)
    ensures !Occurs(Simultaneous(s))
    decreases |s|
  {
    if s != "" {
      var t := HeadToken(s);
      if t == "" {
        NoneLeft(s[1..]);
        HeadStaysPlain(s);
        OccursTail(Simultaneous(s));
      } else {
        NoneLeft(s[|t|..]);
        NewPlain(t, Simultaneous(s[|t|..]));
      }
    }
  }

  /** Without an occurrence nothing changes, so replacing is idempotent. */
  lemma {:induction false} UnchangedExactly(s: string)
    ensures Simultaneous(s) == s <==> !Occurs(s)
    ensures |Simultaneous(s)| <= |s|
    ensures Occurs(s) ==> |Simultaneous(s)| < |s|
    decreases |s|
  {
    if s != "" {
      var t := HeadToken(s);
      if t == "" {
        UnchangedExactly(s[1..]);
        assert s == [s[0]] + s[1..];
        assert Simultaneous(s)[1..] == Simultaneous(s[1..]);
      } else {
        UnchangedExactly(s[|t|..]);
      }
    }
  }

  lemma ReplacedOnce(s: string)
    ensures Sequential(Sequential(s)) == Sequential(s)
  {
    SequentialIsSimultaneous(s);
    SequentialIsSimultaneous(Sequential(s));
    NoneLeft(s);
    UnchangedExactly(Simultaneous(s));
  }

  // ---------- the single pass over all casings ----------

  function Fold(c: char): char { if 'A' <= c <= 'Z' then (c as int + 32) as char else c }

  /** The legacy brand, in any casing, at the head of a text. */
  predicate AnyCaseAt(s: string) { |s| >= 6 && forall i :: 0 <= i < 6 ==> Fold(s[i]) == LOWER[i] }

  /** The replacement callback: by whether all letters, or the first one, are upper case. */
  function Replacement(s: string): string
    requires AnyCaseAt(s)
  {
    if forall i :: 0 <= i < 6 ==> 'A' <= s[i] <= 'Z' then "FOCUS"
    else if 'A' <= s[0] <= 'Z' then "Focus"
    else "focus"
  }

  function SinglePass(s: string): string {
    if s == "" then ""
    else if AnyCaseAt(s) then Replacement(s) + SinglePass(s[6..])
    else [s[0]] + SinglePass(s[1..])
  }

  predicate OddAt(s: string) { AnyCaseAt(s) && HeadToken(s) == "" }

  /** Some occurrence is in none of the three spellings. */
  predicate OddCase(s: string) { s != "" && (OddAt(s) || OddCase(s[1..])) }

  lemma TokensFold(s: string)
    requires HeadToken(s) != ""
    ensures AnyCaseAt(s) && Replacement(s) == NewFor(HeadToken(s))
  {
    var t := HeadToken(s);
    assert s[0] == t[0] && s[1] == t[1] && s[2] == t[2] && s[3] == t[3] && s[4] == t[4] && s[5] == t[5];
  }

  lemma PlainHead(s: string)
    requires s != "" && s[0] != 'H' && s[0] != 'h'
    ensures !AnyCaseAt(s) && HeadToken(s) == ""
  {
  }

  lemma {:induction false} OddPast(p: string, s: string)
    requires Avoids(p, 'H') && Avoids(p, 'h')
    ensures OddCase(p + s) <==> OddCase(s)
    ensures Simultaneous(p + s) == p + Simultaneous(s)
  {
    if p == "" {
      assert p + s == s && p + Simultaneous(s) == Simultaneous(s);
    } else {
      Cons(p, s);
      PlainHead(p + s);
      OddPast(p[1..], s);
      Cons(p, Simultaneous(s));
    }
  }

  lemma AnyCaseTail(s: string)
    requires AnyCaseAt(s)
    ensures Avoids(s[1..6], 'H') && Avoids(s[1..6], 'h') && s[1..] == s[1..6] + s[6..]
  {
    forall i | 0 <= i < 5 ensures s[1..6][i] != 'H' && s[1..6][i] != 'h' {
      assert Fold(s[i + 1]) == LOWER[i + 1];
    }
  }

  /** Past an occurrence. */
  lemma OddStep(s: string)
    requires AnyCaseAt(s)
    ensures OddCase(s) <==> HeadToken(s) == "" || OddCase(s[6..])
    ensures HeadToken(s) == "" ==> |Simultaneous(s)| == 6 + |Simultaneous(s[6..])|
  {
    AnyCaseTail(s);
    OddPast(s[1..6], s[6..]);
  }

  /** The two scripts agree on a text exactly when every occurrence of the brand is in
      one of the three spellings; on others the single pass replaces more. */
  lemma {:induction false} SinglePassExactly(s: string)
    ensures |SinglePass(s)| <= |Simultaneous(s)| && (OddCase(s) ==> |SinglePass(s)| < |Simultaneous(s)|)
    ensures SinglePass(s) == Simultaneous(s) <==> !OddCase(s)
    decreases |s|
  {
    if s != "" {
      if HeadToken(s) != "" { TokensFold(s); }
      if AnyCaseAt(s) {
        SinglePassExactly(s[6..]);
        OddStep(s);
      } else {
        SinglePassExactly(s[1..]);
      }
    }
  }

  // ---------- one file ----------

  predicate Contains(s: string, t: string) { Starts(s, t) || (s != "" && Contains(s[1..], t)) }

  lemma {:induction false} OccursExactly(s: string)
    ensures Occurs(s) <==> Contains(s, UPPER) || Contains(s, TITLE) || Contains(s, LOWER)
  {
    if s != "" { OccursExactly(s[1..]); }
  }

  datatype Replaced = Replaced(data: string, changed: bool) | NotText

  /** _replace_brand_bytes. Whether the data decode as UTF-8 is given. */
  method ReplaceBrand(data: string, utf8: bool) returns (r: Replaced)
    ensures !Occurs(data) ==> r == Replaced(data, false)
    ensures Occurs(data) && !utf8 ==> r == NotText
    ensures Occurs(data) && utf8 ==> r == Replaced(Simultaneous(data), true)
  {
    OccursExactly(data);
    if !Contains(data, UPPER) && !Contains(data, TITLE) && !Contains(data, LOWER) { return Replaced(data, false); }
    if !utf8 { return NotText; }
    var tokens := [UPPER, TITLE, LOWER];
    var current := data;
    SequentialIsSimultaneous(data);
    var i := 0;
    while i < |tokens|
      invariant i <= 3
      invariant current == if i == 0 then data else if i == 1 then Replace(data, UPPER)
                           else if i == 2 then Replace(Replace(data, UPPER), TITLE) else Sequential(data)
    {
      current := Replace(current, tokens[i]);
      i := i + 1;
    }
    return Replaced(current, true);
  }
}
