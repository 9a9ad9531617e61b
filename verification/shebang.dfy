/** The `#!` line of a script: which bytes are read, where the line ends,
    and how it becomes the interpreter's leading arguments. */
module Shebang {
  import opened Ints
  import opened Errors
  import opened Utf8

  /** At most this many bytes of the file, counting the `#!`, are looked at. */
  const HEADER_LIMIT: nat := 256
  const NEWLINE: u8 := 0x0A

  predicate StartsWithShebang(data: seq<u8>)
  {
    |data| >= 2 && data[0] == 0x23 && data[1] == 0x21
  }

  /** The bytes after `#!` and before offset 256 of the file. */
  function HeaderWindow(data: seq<u8>): (head: seq<u8>)
    requires StartsWithShebang(data)
    ensures |head| <= HEADER_LIMIT - 2
    ensures |data| <= HEADER_LIMIT ==> data == data[..2] + head
    ensures |data| > HEADER_LIMIT ==> data[..HEADER_LIMIT] == data[..2] + head
  {
    data[2..if |data| < HEADER_LIMIT then |data| else HEADER_LIMIT]
  }

  /** The position of the first line feed, or the whole length when there
      is none. */
  function LineEnd(head: seq<u8>): (pos: nat)
    ensures pos <= |head|
    ensures forall i :: 0 <= i < pos ==> head[i] != NEWLINE
    ensures pos < |head| ==> head[pos] == NEWLINE
  {
    if head == [] then 0
    else if head[0] == NEWLINE then 0
    else 1 + LineEnd(head[1..])
  }

  // -----------------------------------------------------------------------
  // Trimming and splitting by a character class

  /** How many leading characters of `s` are in the class `p`. */
  function LeadingCount(s: string, p: char -> bool): (k: nat)
    ensures k <= |s|
    ensures forall i :: 0 <= i < k ==> p(s[i])
    ensures k < |s| ==> !p(s[k])
  {
    if s == [] || !p(s[0]) then 0 else 1 + LeadingCount(s[1..], p)
  }

  /** How many trailing characters of `s` are in the class `p`. */
  function TrailingCount(s: string, p: char -> bool): (k: nat)
    ensures k <= |s|
    ensures forall i :: |s| - k <= i < |s| ==> p(s[i])
    ensures k < |s| ==> !p(s[|s| - k - 1])
  {
    if s == [] || !p(s[|s| - 1]) then 0 else 1 + TrailingCount(s[..|s| - 1], p)
  }

  /** `trim_start_matches`, then `trim_end_matches`, with the class `p`:
      `trim` with `IsWhitespace`, `trim_ascii` with `IsAsciiWhitespace`. */
  function TrimBy(s: string, p: char -> bool): (r: string)
    ensures exists i, j :: 0 <= i <= j <= |s| && r == s[i..j]
                           && (forall k :: 0 <= k < i ==> p(s[k]))
                           && (forall k :: j <= k < |s| ==> p(s[k]))
    ensures r != [] ==> !p(r[0]) && !p(r[|r| - 1])
  {
    var i := LeadingCount(s, p);
    var rest := s[i..];
    var n := TrailingCount(rest, p);
    var j := i + |rest| - n;
    assert rest[..|rest| - n] == s[i..j];
    rest[..|rest| - n]
  }

  /** `splitn(2, p)`: the text before the first character in the class and
      the text after it, or the whole text when no character is in it. */
  function SplitOnce(s: string, p: char -> bool): (parts: seq<string>)
    ensures 1 <= |parts| <= 2
    ensures forall c :: c in parts[0] ==> !p(c)
    ensures |parts| == 1 <==> forall c :: c in s ==> !p(c)
    ensures |parts| == 1 ==> parts[0] == s
    ensures |parts| == 2 ==> exists c :: p(c) && s == parts[0] + [c] + parts[1]
  {
    if s == [] then [s]
    else if p(s[0]) then
      assert s == [] + [s[0]] + s[1..];
      ["", s[1..]]
    else
      var tail := SplitOnce(s[1..], p);
      if |tail| == 1 then
        assert s == [s[0]] + s[1..];
        [s]
      else
        var c :| p(c) && s[1..] == tail[0] + [c] + tail[1];
        assert s == [s[0]] + tail[0] + [c] + tail[1];
        [[s[0]] + tail[0], tail[1]]
  }

  // -----------------------------------------------------------------------
  // The shebang line

  /** The leading arguments a `#!` file asks for: the window up to the first
      line feed, decoded as UTF-8 (InvalidData otherwise), trimmed, split at
      the first ASCII whitespace, and each part ASCII-trimmed. */
  function ShebangArgs(data: seq<u8>): (r: Result<seq<string>>)
    requires StartsWithShebang(data)
    ensures r.Err? <==> !WellFormed(HeaderWindow(data)[..LineEnd(HeaderWindow(data))])
    ensures r.Err? ==> r.error == InvalidData
    ensures r.Ok? ==> 1 <= |r.value| <= 2
  {
    var head := HeaderWindow(data);
    var line :- Decode(head[..LineEnd(head)]);
    var parts := SplitOnce(TrimBy(line, IsWhitespace), IsAsciiWhitespace);
    Ok(TrimEach(parts))
  }

  /** `.map(|s| s.trim_ascii())`. */
  function TrimEach(parts: seq<string>): (r: seq<string>)
    ensures |r| == |parts|
    ensures forall i :: 0 <= i < |parts| ==> r[i] == TrimBy(parts[i], IsAsciiWhitespace)
  {
    if parts == [] then [] else [TrimBy(parts[0], IsAsciiWhitespace)] + TrimEach(parts[1..])
  }

  /** The interpreter path is the trimmed line up to its first ASCII
      whitespace; it holds no ASCII whitespace and is empty only when the
      whole line is blank. When there is an argument part, it is the rest
      of the line after that whitespace, ASCII-trimmed, and the interpreter
      path is not empty. */
  lemma ShebangArgsShape(data: seq<u8>)
    requires StartsWithShebang(data)
    requires ShebangArgs(data).Ok?
    ensures var head := HeaderWindow(data);
            var line := TrimBy(Decode(head[..LineEnd(head)]).value, IsWhitespace);
            var args := ShebangArgs(data).value;
            && (forall c :: c in args[0] ==> !IsAsciiWhitespace(c))
            && (args[0] == [] <==> line == [] || IsAsciiWhitespace(line[0]))
            && (|args| == 1 <==> forall c :: c in line ==> !IsAsciiWhitespace(c))
            && (|args| == 1 ==> args[0] == line)
            && (|args| == 2 ==>
                  && args[0] != []
                  && (exists c :: IsAsciiWhitespace(c) && line == args[0] + [c] + line[|args[0]| + 1..])
                  && args[1] == TrimBy(line[|args[0]| + 1..], IsAsciiWhitespace))
  {
    var head := HeaderWindow(data);
    var line := TrimBy(Decode(head[..LineEnd(head)]).value, IsWhitespace);
    var parts := SplitOnce(line, IsAsciiWhitespace);
    var args := ShebangArgs(data).value;
    assert args[0] == TrimBy(parts[0], IsAsciiWhitespace);
    NoClassTrimIsIdentity(parts[0], IsAsciiWhitespace);
    if line != [] {
      AsciiWhitespaceIsWhitespace(line[0]);
    }
    if |parts| == 1 {
      assert args[0] == line;
    } else {
      var c :| IsAsciiWhitespace(c) && line == parts[0] + [c] + parts[1];
      assert line[|parts[0]| + 1..] == parts[1];
      assert line[|parts[0]|] == c;
    }
  }

  lemma NoClassTrimIsIdentity(s: string, p: char -> bool)
    requires forall c :: c in s ==> !p(c)
    ensures TrimBy(s, p) == s
  {
    if s != [] {
      assert s[0] in s;
      assert s[|s| - 1] in s;
    }
  }

  /** A line without whitespace is the interpreter path and nothing else. */
  lemma SingleWordLine(data: seq<u8>)
    requires StartsWithShebang(data)
    requires WellFormed(HeaderWindow(data)[..LineEnd(HeaderWindow(data))])
    requires var line := Decode(HeaderWindow(data)[..LineEnd(HeaderWindow(data))]).value;
             forall c :: c in line ==> !IsWhitespace(c)
    ensures ShebangArgs(data) == Ok([Decode(HeaderWindow(data)[..LineEnd(HeaderWindow(data))]).value])
  {
    var line := Decode(HeaderWindow(data)[..LineEnd(HeaderWindow(data))]).value;
    NoClassTrimIsIdentity(line, IsWhitespace);
    forall c | c in line
      ensures !IsAsciiWhitespace(c)
    {
      AsciiWhitespaceIsWhitespace(c);
    }
    NoClassTrimIsIdentity(line, IsAsciiWhitespace);
    assert TrimBy(line, IsWhitespace) == line;
    assert SplitOnce(line, IsAsciiWhitespace) == [line];
    assert TrimEach([line]) == [line];
  }

  /** `#!/bin/sh` followed by a line feed names `/bin/sh` and no argument. */
  lemma BinShExample()
    ensures var data: seq<u8> := [0x23, 0x21, 0x2F, 0x62, 0x69, 0x6E, 0x2F, 0x73, 0x68, 0x0A];
            StartsWithShebang(data) && ShebangArgs(data) == Ok(["/bin/sh"])
  {
    var data: seq<u8> := [0x23, 0x21, 0x2F, 0x62, 0x69, 0x6E, 0x2F, 0x73, 0x68, 0x0A];
    var bytes: seq<u8> := [0x2F, 0x62, 0x69, 0x6E, 0x2F, 0x73, 0x68];
    var head := HeaderWindow(data);
    assert head == bytes + [NEWLINE];
    FirstNewline(head, 7);
    assert head[..7] == bytes;
    BinShDecodes(bytes);
    SingleWordLine(data);
  }

  /** The line ends at the first line feed. */
  lemma FirstNewline(head: seq<u8>, k: nat)
    requires k < |head| && head[k] == NEWLINE
    requires forall i :: 0 <= i < k ==> head[i] != NEWLINE
    ensures LineEnd(head) == k
  {
  }

  lemma BinShDecodes(bytes: seq<u8>)
    requires bytes == [0x2F, 0x62, 0x69, 0x6E, 0x2F, 0x73, 0x68]
    ensures WellFormed(bytes) && Decode(bytes).value == "/bin/sh"
    ensures forall c :: c in Decode(bytes).value ==> !IsWhitespace(c)
  {
    DecodeAscii(bytes);
    var line := Decode(bytes).value;
    assert |line| == 7;
    assert line == "/bin/sh";
  }
}
