/**
 * The file index of the domain substitution cache: one line `path|%08x` per
 * substituted file, and how it is read back.
 */
module DomainIndex {
  import opened TextLines
  import opened Wrappers

  type Path = string
  newtype Crc = c: int | 0 <= c < 0x1_0000_0000

  const DELIMITER := '|'

  /** One index entry. */
  datatype Entry = Entry(path: Path, crc: Crc)

  /** A path as a line of the file list can give it: no line break in it. */
  predicate OneLine(path: Path) { NEWLINE !in path }

  predicate Listable(path: Path) { path != "" && OneLine(path) && DELIMITER !in path }

  // ---------- hexadecimal ----------

  function HexDigit(d: nat): (c: char)
    requires d < 16
  {
    if d < 10 then '0' + d as char else 'a' + (d - 10) as char
  }

  function DigitValue(c: char): (r: Option<nat>)
    ensures r.Some? ==> r.value < 16
  {
    if '0' <= c <= '9' then Some(c as nat - '0' as nat)
    else if 'a' <= c <= 'f' then Some(c as nat - 'a' as nat + 10)
    else if 'A' <= c <= 'F' then Some(c as nat - 'A' as nat + 10)
    else None
  }

  /** Digits are read in either case. */
  lemma EitherCase(d: nat)
    requires d < 16
    ensures DigitValue(HexDigit(d)) == Some(d)
    ensures d >= 10 ==> DigitValue('A' + (d - 10) as char) == Some(d)
  {
  }

  predicate Alphanumeric(c: char) { '0' <= c <= '9' || 'a' <= c <= 'z' || 'A' <= c <= 'Z' }

  /** `width` lower-case hexadecimal digits, most significant first. */
  function Hex(n: nat, width: nat): (s: string)
    ensures |s| == width
    ensures forall i :: 0 <= i < |s| ==> Alphanumeric(s[i]) && s[i] != 'x' && s[i] != 'X'
  {
    if width == 0 then "" else Hex(n / 16, width - 1) + [HexDigit(n % 16)]
  }

  function Power16(k: nat): nat { if k == 0 then 1 else 16 * Power16(k - 1) }

  function ParseDigits(s: string): Option<nat> {
    if s == "" then Some(0)
    else
      var front, last := ParseDigits(s[..|s| - 1]), DigitValue(s[|s| - 1]);
      if front == None || last == None then None else Some(front.value * 16 + last.value)
  }

  /** int(s, 16) for an alphanumeric string of eight characters. */
  function ParseHex(s: string): Option<nat> {
    if |s| >= 2 && s[0] == '0' && (s[1] == 'x' || s[1] == 'X') then (if |s| == 2 then None else ParseDigits(s[2..]))
    else if s == "" then None
    else ParseDigits(s)
  }

  lemma {:induction false} ParsePrinted(n: nat, width: nat)
    requires n < Power16(width)
    ensures ParseDigits(Hex(n, width)) == Some(n)
  {
    if width > 0 {
      ParsePrinted(n / 16, width - 1);
      assert Hex(n, width)[..width - 1] == Hex(n / 16, width - 1);
      assert DigitValue(HexDigit(n % 16)) == Some(n % 16);
    }
  }

  /** Eight digits hold a CRC-32, and reading them gives it back. */
  lemma HexRoundTrip(crc: Crc)
    ensures ParseHex(Hex(crc as nat, 8)) == Some(crc as nat)
  {
    assert Power16(8) == 0x1_0000_0000 by {
      assert Power16(2) == 256;
      assert Power16(4) == 0x1_0000;
      assert Power16(6) == 0x100_0000;
    }
    ParsePrinted(crc as nat, 8);
  }

  // ---------- lines ----------

  function IndexLine(e: Entry): string { e.path + [DELIMITER] + Hex(e.crc as nat, 8) }

  function IndexText(entries: seq<Entry>): string {
    if entries == [] then "" else IndexLine(entries[0]) + [NEWLINE] + IndexText(entries[1..])
  }

  /** The printed index splits back into its lines. */
  lemma {:induction false} IndexSplits(entries: seq<Entry>)
    requires forall i :: 0 <= i < |entries| ==> OneLine(entries[i].path)
    ensures |SplitLines(IndexText(entries))| == |entries|
    ensures forall i :: 0 <= i < |entries| ==> SplitLines(IndexText(entries))[i] == IndexLine(entries[i])
  {
    if entries != [] {
      var line, rest := IndexLine(entries[0]), IndexText(entries[1..]);
      var text := IndexText(entries);
      assert NEWLINE !in line;
      LineEndAt(line, rest);
      assert text[..|line|] == line && text[|line| + 1..] == rest;
      IndexSplits(entries[1..]);
    }
  }

  // ---------- one index line ----------

  /** The two sides of a line with exactly one delimiter. */
  function SplitEntry(line: string): (r: Option<(string, string)>)
    ensures r.Some? ==> line == r.value.0 + [DELIMITER] + r.value.1
    ensures r.Some? ==> DELIMITER !in r.value.0 && DELIMITER !in r.value.1
  {
    if line == "" then None
    else if line[0] == DELIMITER then (if DELIMITER in line[1..] then None else Some(("", line[1..])))
    else
      match SplitEntry(line[1..])
      case None => None
      case Some(p) => Some(([line[0]] + p.0, p.1))
  }

  lemma {:induction false} SplitPrinted(path: string, hash: string)
    requires DELIMITER !in path && DELIMITER !in hash
    ensures SplitEntry(path + [DELIMITER] + hash) == Some((path, hash))
  {
    var line := path + [DELIMITER] + hash;
    if path == "" {
      assert line[1..] == hash;
    } else {
      assert line[1..] == path[1..] + [DELIMITER] + hash;
      SplitPrinted(path[1..], hash);
      assert [path[0]] + path[1..] == path;
    }
  }

  /** What the reader makes of one line before it looks at any file: a line it skips
      without complaint, one that makes the index invalid, one whose hash is no number,
      or an entry. */
  datatype ReadLine = Skipped | Rejected | NotANumber | Read(path: Path, crc: nat)

  function ReadEntry(line: string): ReadLine {
    match SplitEntry(line)
    case None => Skipped
    case Some((path, hash)) =>
      if path == "" || hash == "" then Rejected
      else if |hash| != 8 || exists i :: 0 <= i < |hash| && !Alphanumeric(hash[i]) then Rejected
      else
        match ParseHex(hash)
        case None => NotANumber
        case Some(crc) => Read(path, crc)
  }

  /** A printed entry is read back as it was. */
  lemma EntryRoundTrip(e: Entry)
    requires Listable(e.path)
    ensures ReadEntry(IndexLine(e)) == Read(e.path, e.crc as nat)
  {
    SplitPrinted(e.path, Hex(e.crc as nat, 8));
    HexRoundTrip(e.crc);
  }

  function Delimiters(line: string): nat {
    if line == "" then 0 else (if line[0] == DELIMITER then 1 else 0) + Delimiters(line[1..])
  }

  lemma {:induction false} NoDelimiters(line: string)
    ensures Delimiters(line) == 0 <==> DELIMITER !in line
  {
    if line != "" { NoDelimiters(line[1..]); }
  }

  /** A line is passed over, with no consequence for the index, exactly when it does
      not hold exactly one delimiter. */
  lemma {:induction false} SkippedExactly(line: string)
    ensures ReadEntry(line) == Skipped <==> Delimiters(line) != 1
    ensures SplitEntry(line).Some? <==> Delimiters(line) == 1
  {
    if line != "" {
      NoDelimiters(line[1..]);
      SkippedExactly(line[1..]);
    }
  }
}
