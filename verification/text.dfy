/** The string operations the line formats rely on: Python's `sep.join`,
    `str.split(sep)`, `str.strip()` and iteration over the lines of a text file. */
module Text {
  import opened Wrappers

  /** The index of the first occurrence of `c` in `s`, if any. */
  function IndexOf(s: string, c: char): (r: Option<nat>)
    ensures r.None? <==> c !in s
    ensures r.Some? ==> r.value < |s| && s[r.value] == c && c !in s[..r.value]
  {
    if s == [] then None
    else if s[0] == c then Some(0)
    else match IndexOf(s[1..], c)
      case None => None
      case Some(i) => assert s[1..][..i] == s[1..i + 1]; Some(i + 1)
  }

  /** `sep.join(parts)`. */
  function Join(parts: seq<string>, sep: char): string
  {
    if parts == [] then ""
    else if |parts| == 1 then parts[0]
    else parts[0] + [sep] + Join(parts[1..], sep)
  }

  /** Python's `s.split(sep)`: the maximal pieces between separators; never empty. */
  function Split(s: string, sep: char): (r: seq<string>)
    ensures |r| >= 1
    ensures forall i :: 0 <= i < |r| ==> sep !in r[i]
    decreases |s|
  {
    match IndexOf(s, sep)
    case None => [s]
    case Some(i) => [s[..i]] + Split(s[i + 1..], sep)
  }

  /** Splitting undoes joining, provided no piece contains the separator. */
  lemma {:induction false} SplitJoin(parts: seq<string>, sep: char)
    requires |parts| >= 1
    requires forall i :: 0 <= i < |parts| ==> sep !in parts[i]
    ensures Split(Join(parts, sep), sep) == parts
    decreases |parts|
  {
    if |parts| > 1 {
      var tail := Join(parts[1..], sep);
      var s := parts[0] + [sep] + tail;
      assert Join(parts, sep) == s;
      JoinFirstSeparator(parts[0], sep, tail);
      assert s[..|parts[0]|] == parts[0];
      assert s[|parts[0]| + 1..] == tail;
      assert Split(s, sep) == [parts[0]] + Split(tail, sep);
      SplitJoin(parts[1..], sep);
      assert parts == [parts[0]] + parts[1..];
    }
  }

  lemma JoinFirstSeparator(head: string, sep: char, tail: string)
    requires sep !in head
    ensures IndexOf(head + [sep] + tail, sep) == Some(|head|)
  {
    var s := head + [sep] + tail;
    assert s[..|head|] == head;
    assert s[|head|] == sep;
  }

  /** Joining undoes splitting: nothing of the input is lost. */
  lemma {:induction false} JoinSplit(s: string, sep: char)
    ensures Join(Split(s, sep), sep) == s
    decreases |s|
  {
    var r := IndexOf(s, sep);
    if r.Some? {
      var i := r.value;
      var rest := Split(s[i + 1..], sep);
      assert Split(s, sep) == [s[..i]] + rest;
      assert ([s[..i]] + rest)[1..] == rest;
      JoinSplit(s[i + 1..], sep);
      assert s == s[..i] + [sep] + s[i + 1..];
    }
  }

  /** The characters Python's argument-less `str.strip()` removes. */
  predicate IsSpace(c: char)
  {
    c in {'\U{20}', '\U{9}', '\U{A}', '\U{D}', '\U{B}', '\U{C}', '\U{1C}', '\U{1D}',
          '\U{1E}', '\U{1F}', '\U{85}', '\U{A0}', '\U{1680}', '\U{2000}', '\U{2001}', '\U{2002}',
          '\U{2003}', '\U{2004}', '\U{2005}', '\U{2006}', '\U{2007}', '\U{2008}', '\U{2009}', '\U{200A}',
          '\U{2028}', '\U{2029}', '\U{202F}', '\U{205F}', '\U{3000}'}
  }

  function StripLeft(s: string): (r: string)
    ensures |r| <= |s| && r == s[|s| - |r|..]
    ensures r != [] ==> !IsSpace(r[0])
  {
    if s != [] && IsSpace(s[0]) then StripLeft(s[1..]) else s
  }

  function StripRight(s: string): (r: string)
    ensures |r| <= |s| && r == s[..|r|]
    ensures r != [] ==> !IsSpace(r[|r| - 1])
  {
    if s != [] && IsSpace(s[|s| - 1]) then StripRight(s[..|s| - 1]) else s
  }

  /** Python's `s.strip()`. */
  function Strip(s: string): (r: string)
    ensures |r| <= |s|
    ensures r != [] ==> !IsSpace(r[0]) && !IsSpace(r[|r| - 1])
  {
    var l := StripLeft(s);
    var r := StripRight(l);
    assert r != [] ==> r[0] == l[0];
    r
  }

  /** A string that starts and ends with a visible character keeps its content
      when a trailing newline is stripped from it. */
  lemma StripNewline(s: string)
    requires s != [] && !IsSpace(s[0]) && !IsSpace(s[|s| - 1])
    ensures Strip(s + "\n") == s
  {
    var t := s + "\n";
    assert StripLeft(t) == t;
    assert t[..|t| - 1] == s;
    assert StripRight(t) == StripRight(s);
  }

  /** Python's universal-newline reading: a `\r\n` pair and a lone `\r`
      each become `\n`; every other character is kept. */
  function Universal(s: string): (r: string)
    ensures s == [] <==> r == []
    ensures '\r' !in r
    ensures '\r' !in s ==> r == s
    decreases |s|
  {
    if s == [] then []
    else if s[0] == '\r' then
      if |s| > 1 && s[1] == '\n' then "\n" + Universal(s[2..]) else "\n" + Universal(s[1..])
    else
      assert s == [s[0]] + s[1..];
      [s[0]] + Universal(s[1..])
  }

  /** The pieces of `s` up to and including each `\n`; the last piece may
      lack one. */
  function SplitLines(s: string): (r: seq<string>)
    ensures s == [] <==> r == []
    decreases |s|
  {
    if s == [] then []
    else match IndexOf(s, '\n')
      case None => [s]
      case Some(i) => [s[..i + 1]] + SplitLines(s[i + 1..])
  }

  /** The lines a Python text file opened in text mode yields when iterated:
      line breaks are `\n`, `\r\n` or `\r`, each read as `\n`; every line
      ends with its newline, except possibly the last one. */
  function Lines(s: string): (r: seq<string>)
    ensures s == [] <==> r == []
    ensures forall i :: 0 <= i < |r| ==> '\r' !in r[i]
  {
    var t := Universal(s);
    SplitLinesFrom(t);
    SplitLines(t)
  }

  /** Every piece of a text is a slice of it. */
  lemma {:induction false} SplitLinesFrom(s: string)
    ensures forall i :: 0 <= i < |SplitLines(s)| ==> forall c :: c in SplitLines(s)[i] ==> c in s
    decreases |s|
  {
    if s != [] {
      var r := IndexOf(s, '\n');
      if r.Some? {
        var k := r.value;
        SplitLinesFrom(s[k + 1..]);
        var rest := SplitLines(s[k + 1..]);
        assert SplitLines(s) == [s[..k + 1]] + rest;
        forall i | 0 <= i < |SplitLines(s)| ensures forall c :: c in SplitLines(s)[i] ==> c in s {
          if i > 0 {
            assert SplitLines(s)[i] == rest[i - 1];
            assert forall c :: c in s[k + 1..] ==> c in s;
          }
        }
      }
    }
  }

  /** Each line with a newline appended. */
  function Newlined(ls: seq<string>): (r: seq<string>)
    ensures |r| == |ls| && forall i :: 0 <= i < |ls| ==> r[i] == ls[i] + "\n"
    decreases |ls|
  {
    if ls == [] then [] else [ls[0] + "\n"] + Newlined(ls[1..])
  }

  /** A text made of newline-terminated lines free of `\n` and `\r` is read
      back as exactly those lines, each with its newline. */
  lemma LinesOfTerminated(ls: seq<string>)
    requires forall i :: 0 <= i < |ls| ==> '\n' !in ls[i] && '\r' !in ls[i]
    ensures Lines(Terminated(ls)) == Newlined(ls)
  {
    TerminatedNoReturn(ls);
    SplitTerminated(ls);
  }

  /** A text of lines free of `\r` holds no `\r`. */
  lemma {:induction false} TerminatedNoReturn(ls: seq<string>)
    requires forall i :: 0 <= i < |ls| ==> '\r' !in ls[i]
    ensures '\r' !in Terminated(ls)
    decreases |ls|
  {
    if ls != [] {
      TerminatedNoReturn(ls[1..]);
    }
  }

  /** Splitting newline-terminated, newline-free lines at their newlines gives
      each line back with its newline. */
  lemma {:induction false} SplitTerminated(ls: seq<string>)
    requires forall i :: 0 <= i < |ls| ==> '\n' !in ls[i]
    ensures SplitLines(Terminated(ls)) == Newlined(ls)
    decreases |ls|
  {
    if ls != [] {
      var rest := Terminated(ls[1..]);
      JoinFirstSeparator(ls[0], '\n', rest);
      var s := ls[0] + "\n" + rest;
      assert s[..|ls[0]| + 1] == ls[0] + "\n";
      assert s[|ls[0]| + 1..] == rest;
      SplitTerminated(ls[1..]);
    }
  }

  /** The text written by emitting every line followed by a newline. */
  function Terminated(ls: seq<string>): string
  {
    if ls == [] then "" else ls[0] + "\n" + Terminated(ls[1..])
  }

  /** The text of lines each followed by the line ending `eol`. */
  function EndedBy(ls: seq<string>, eol: string): string
    decreases |ls|
  {
    if ls == [] then "" else ls[0] + (eol + EndedBy(ls[1..], eol))
  }

  /** A line ending Python's universal-newline reading recognises. */
  predicate IsLineEnding(eol: string)
  {
    eol == "\n" || eol == "\r" || eol == "\r\n"
  }

  /** Lines free of `\n` and `\r` read back the same whichever line ending
      separates them: each comes back with a `\n`. */
  lemma LinesOfEndedBy(ls: seq<string>, eol: string)
    requires IsLineEnding(eol)
    requires forall i :: 0 <= i < |ls| ==> '\n' !in ls[i] && '\r' !in ls[i]
    ensures Lines(EndedBy(ls, eol)) == Newlined(ls)
  {
    UniversalEndedBy(ls, eol);
    SplitTerminated(ls);
  }

  /** Universal-newline reading turns every recognised line ending into `\n`. */
  lemma {:induction false} UniversalEndedBy(ls: seq<string>, eol: string)
    requires IsLineEnding(eol)
    requires forall i :: 0 <= i < |ls| ==> '\n' !in ls[i] && '\r' !in ls[i]
    ensures Universal(EndedBy(ls, eol)) == Terminated(ls)
    decreases |ls|
  {
    if ls != [] {
      var rest := EndedBy(ls[1..], eol);
      UniversalEndedBy(ls[1..], eol);
      assert eol == "\n" || rest == [] || rest[0] != '\n' by {
        if ls[1..] != [] && eol != "\n" {
          assert ls[1..][0] == ls[1] && ls[1..][1..] == ls[2..];
          assert rest == ls[1] + (eol + EndedBy(ls[2..], eol));
          if ls[1] != [] {
            assert rest[0] == ls[1][0];
          } else {
            assert rest[0] == eol[0];
          }
        }
      }
      UniversalEnding(eol, rest);
      UniversalKeeps(ls[0], eol + rest);
    }
  }

  /** One recognised line ending, not followed by a `\n` it could pair with,
      reads as one `\n`. */
  lemma UniversalEnding(eol: string, rest: string)
    requires IsLineEnding(eol)
    requires eol == "\n" || rest == [] || rest[0] != '\n'
    ensures Universal(eol + rest) == "\n" + Universal(rest)
  {
    var s := eol + rest;
    if eol == "\r\n" {
      assert s[2..] == rest;
    } else {
      assert s[1..] == rest;
    }
  }

  /** Universal-newline reading leaves a text without `\r` as it is. */
  lemma {:induction false} UniversalKeeps(l: string, rest: string)
    requires '\r' !in l
    ensures Universal(l + rest) == l + Universal(rest)
    decreases |l|
  {
    if l != [] {
      var t := l[1..];
      assert l == [l[0]] + t;
      assert l[0] != '\r' && '\r' !in t;
      var s := l + rest;
      assert s[0] == l[0] && s[1..] == t + rest;
      UniversalKeeps(t, rest);
      assert Universal(s) == [l[0]] + (t + Universal(rest));
    } else {
      assert l + rest == rest;
    }
  }

  /** The decimal digits of `n`, most significant first, without leading
      zeros. */
  function Digits(n: nat): (r: string)
    ensures r != [] && forall i :: 0 <= i < |r| ==> '0' <= r[i] <= '9'
    decreases n
  {
    if n < 10 then [(48 + n) as char] else Digits(n / 10) + [(48 + n % 10) as char]
  }

  /** The number a string of decimal digits spells; `None` for an empty
      string or one holding any other character. */
  function ReadDigits(s: string): Option<nat>
    decreases |s|
  {
    if s == [] || !('0' <= s[|s| - 1] <= '9') then None
    else
      var d := s[|s| - 1] as int - 48;
      if |s| == 1 then Some(d)
      else match ReadDigits(s[..|s| - 1])
        case None => None
        case Some(n) => Some(10 * n + d)
  }

  /** Reading the digits of `n` gives `n` back. */
  lemma {:induction false} ReadDigitsOf(n: nat)
    ensures ReadDigits(Digits(n)) == Some(n)
    decreases n
  {
    if n >= 10 {
      ReadDigitsOf(n / 10);
      var s := Digits(n);
      assert s[..|s| - 1] == Digits(n / 10);
    }
  }
}
