/**
  Strings as Python's `str` methods see them: white space, physical lines, stripping, splitting
  and joining.
 */
module Texts {
  import opened Options

  // ---------------------------------------------------------------------------
  // White space
  // ---------------------------------------------------------------------------

  predicate IsSpace(c: char)
  {
    var n := c as int;
    9 <= n <= 13 || 28 <= n <= 32 || n == 0x85 || n == 0xA0 || n == 0x1680 || 0x2000 <= n <= 0x200A
    || n == 0x2028 || n == 0x2029 || n == 0x202F || n == 0x205F || n == 0x3000
  }

  predicate IsBlank(s: string)
  {
    forall i :: 0 <= i < |s| ==> IsSpace(s[i])
  }

  /** The characters of a text that are not white space, in order. */
  function Ink(s: string): (r: string)
    ensures r == "" <==> IsBlank(s)
  {
    if s == "" then ""
    else (if IsSpace(s[0]) then "" else [s[0]]) + Ink(s[1..])
  }

  lemma {:induction false} InkAppend(a: string, b: string)
    ensures Ink(a + b) == Ink(a) + Ink(b)
  {
    hide IsSpace, IsBlank;
    if a == "" {
      assert a + b == b;
    } else {
      assert (a + b)[1..] == a[1..] + b;
      InkAppend(a[1..], b);
    }
  }

  /** `str.strip`: `edge` says which characters are removed at both ends. */
  function StripLeft(edge: char -> bool, s: string): (r: string)
    ensures r == "" || !edge(r[0])
    ensures |r| <= |s| && r == s[|s| - |r|..]
  {
    if s != "" && edge(s[0]) then StripLeft(edge, s[1..]) else s
  }

  function StripRight(edge: char -> bool, s: string): (r: string)
    ensures r == "" || !edge(r[|r| - 1])
    ensures r <= s
  {
    if s != "" && edge(s[|s| - 1]) then StripRight(edge, s[..|s| - 1]) else s
  }

  function Strip(edge: char -> bool, s: string): string
  {
    StripRight(edge, StripLeft(edge, s))
  }

  function Trim(s: string): string
  {
    Strip(IsSpace, s)
  }

  /** All that is removed from the front satisfies the edge predicate. */
  lemma {:induction false} StrippedFront(edge: char -> bool, s: string, n: nat)
    requires n <= |s| - |StripLeft(edge, s)|
    ensures forall i :: 0 <= i < n ==> edge(s[i])
  {
    if n > 0 {
      StrippedFront(edge, s[1..], n - 1);
      forall i | 1 <= i < n
        ensures edge(s[i])
      {
        assert s[i] == s[1..][i - 1];
      }
    }
  }

  lemma {:induction false} StrippedEnd(edge: char -> bool, s: string)
    ensures forall i :: |StripRight(edge, s)| <= i < |s| ==> edge(s[i])
  {
    if s != "" && edge(s[|s| - 1]) {
      StrippedEnd(edge, s[..|s| - 1]);
    }
  }

  lemma {:induction false} InkStripLeft(edge: char -> bool, s: string)
    requires forall c :: edge(c) ==> IsSpace(c)
    ensures Ink(StripLeft(edge, s)) == Ink(s)
  {
    if s != "" && edge(s[0]) {
      InkStripLeft(edge, s[1..]);
    }
  }

  lemma {:induction false} InkStripRight(edge: char -> bool, s: string)
    requires forall c :: edge(c) ==> IsSpace(c)
    ensures Ink(StripRight(edge, s)) == Ink(s)
  {
    if s != "" && edge(s[|s| - 1]) {
      InkStripRight(edge, s[..|s| - 1]);
      assert s == s[..|s| - 1] + [s[|s| - 1]];
      InkAppend(s[..|s| - 1], [s[|s| - 1]]);
    }
  }

  lemma InkStrip(edge: char -> bool, s: string)
    requires forall c :: edge(c) ==> IsSpace(c)
    ensures Ink(Strip(edge, s)) == Ink(s)
  {
    InkStripLeft(edge, s);
    InkStripRight(edge, StripLeft(edge, s));
  }

  /** `r` is `s` from `i` to `j`; all outside is edge, and neither end of `r` is. */
  ghost predicate StrippedTo(edge: char -> bool, s: string, i: nat, j: nat, r: string)
  {
    && i <= j <= |s| && r == s[i..j]
    && (forall k :: 0 <= k < i ==> edge(s[k])) && (forall k :: j <= k < |s| ==> edge(s[k]))
    && (r != "" ==> !edge(r[0]) && !edge(r[|r| - 1]))
  }

  lemma StripIs(edge: char -> bool, s: string) returns (i: nat, j: nat)
    ensures StrippedTo(edge, s, i, j, Strip(edge, s))
  {
    hide StripLeft, StripRight;
    var left := StripLeft(edge, s);
    var r := StripRight(edge, left);
    i := |s| - |left|;
    j := i + |r|;
    StrippedFront(edge, s, i);
    StrippedEnd(edge, left);
    assert r == left[..|r|] == s[i..j];
    forall k | j <= k < |s|
      ensures edge(s[k])
    {
      assert s[k] == left[k - i];
    }
    assert r != "" ==> r[0] == left[0];
  }

  lemma TrimIs(s: string) returns (i: nat, j: nat)
    ensures StrippedTo(IsSpace, s, i, j, Trim(s))
  {
    hide Strip, StrippedTo;
    i, j := StripIs(IsSpace, s);
  }

  /** A trimmed text is empty iff the text is blank. */
  lemma TrimEmpty(s: string)
    ensures Trim(s) == "" <==> IsBlank(s)
  {
    InkStrip(IsSpace, s);
    assert Trim(s) != "" ==> !IsSpace(Trim(s)[|Trim(s)| - 1]);
  }

  // ---------------------------------------------------------------------------
  // Lines
  // ---------------------------------------------------------------------------

  /** The characters at which `str.splitlines` breaks. */
  predicate IsBreak(c: char)
  {
    c in {'\n', '\r', 11 as char, 12 as char, 28 as char, 29 as char, 30 as char, 133 as char, 0x2028 as char,
      0x2029 as char}
  }

  /** Length of the first physical line with its terminator; `\r\n` is one terminator. */
  function LineLength(text: string): (n: nat)
    requires text != ""
    ensures 1 <= n <= |text|
  {
    if text[0] == '\r' && |text| > 1 && text[1] == '\n' then 2
    else if IsBreak(text[0]) || |text| == 1 then 1
    else 1 + LineLength(text[1..])
  }

  /** `splitlines(keepends=True)` */
  function SplitLines(text: string): seq<string>
  {
    if text == "" then []
    else
      var n := LineLength(text);
      [text[..n]] + SplitLines(text[n..])
  }

  /** A break ends its line, and `\r\n` is one break. */
  ghost predicate IsLine(line: string)
  {
    && line != ""
    && forall i :: 0 <= i < |line| - 1 && IsBreak(line[i]) ==>
         i == |line| - 2 && line[i] == '\r' && line[i + 1] == '\n'
  }

  /** One line is over where the next begins. */
  ghost predicate IsOver(line: string, next: string)
  {
    && line != "" && next != "" && IsBreak(line[|line| - 1])
    && !(line[|line| - 1] == '\r' && next[0] == '\n')
  }

  lemma {:induction false} FirstLine(text: string)
    requires text != ""
    ensures var n := LineLength(text);
            IsLine(text[..n]) && (n < |text| ==> IsOver(text[..n], text[n..]))
  {
    hide IsBreak;
    var n := LineLength(text);
    LineFeedsBreak();
    if !(text[0] == '\r' && |text| > 1 && text[1] == '\n') && !IsBreak(text[0]) && |text| > 1 {
      var rest := text[1..];
      FirstLine(rest);
      assert text[..n] == [text[0]] + rest[..n - 1] && text[n..] == rest[n - 1..];
      forall i | 0 <= i < n - 1 && IsBreak(text[..n][i])
        ensures i == n - 2 && text[i] == '\r' && text[i + 1] == '\n'
      {
        assert i > 0 && text[i] == rest[..n - 1][i - 1];
      }
    }
  }

  lemma LineFeedsBreak()
    ensures IsBreak('\n') && IsBreak('\r')
  {
  }

  /** Lines end at the breaks, at every break, and nowhere else. */
  lemma {:induction false} SplitLinesAtBreaks(text: string)
    ensures forall k :: 0 <= k < |SplitLines(text)| ==> IsLine(SplitLines(text)[k])
    ensures forall k, l :: 0 <= k && l == k + 1 && l < |SplitLines(text)| ==>
              IsOver(SplitLines(text)[k], SplitLines(text)[l])
  {
    hide IsLine, LineLength;
    if text != "" {
      FirstLine(text);
      var n := LineLength(text);
      SplitLinesAtBreaks(text[n..]);
      var rest := SplitLines(text[n..]);
      assert SplitLines(text) == [text[..n]] + rest;
      if n < |text| {
        NextStarts(text[n..]);
      }
    }
  }

  lemma NextStarts(text: string)
    requires text != ""
    ensures SplitLines(text) != [] && SplitLines(text)[0] != "" && SplitLines(text)[0][0] == text[0]
  {
  }

  // ---------------------------------------------------------------------------
  // Putting texts together
  // ---------------------------------------------------------------------------

  function Concat(parts: seq<string>): string
  {
    if parts == [] then "" else Concat(parts[..|parts| - 1]) + parts[|parts| - 1]
  }

  lemma {:induction false} ConcatCons(part: string, parts: seq<string>)
    ensures Concat([part] + parts) == part + Concat(parts)
  {
    if parts == [] {
      assert ([part] + parts)[..0] == [];
    } else {
      var front := parts[..|parts| - 1];
      assert ([part] + parts)[..|parts|] == [part] + front;
      ConcatCons(part, front);
    }
  }

  lemma {:induction false} SplitLinesConcat(text: string)
    ensures Concat(SplitLines(text)) == text
  {
    if text != "" {
      var n := LineLength(text);
      SplitLinesConcat(text[n..]);
      ConcatCons(text[..n], SplitLines(text[n..]));
    }
  }

  lemma ConcatSnoc(parts: seq<string>, part: string)
    ensures Concat(parts + [part]) == Concat(parts) + part
  {
    assert (parts + [part])[..|parts|] == parts;
  }

  lemma ConcatOne(part: string)
    ensures Concat([part]) == part
  {
    assert [part][..0] == [] && Concat([]) == "";
  }

  lemma ConcatNone(lines: seq<string>)
    ensures Concat(lines[..0]) == ""
  {
  }

  lemma {:induction false} ConcatTo(lines: seq<string>, k: nat)
    requires k < |lines|
    ensures Concat(lines[..k + 1]) == Concat(lines[..k]) + lines[k]
    ensures Concat(lines[..k + 1]) <= Concat(lines)
    decreases |lines|
  {
    assert lines[..k + 1][..k] == lines[..k];
    if k + 1 == |lines| {
      assert lines[..k + 1] == lines;
    } else {
      var front := lines[..|lines| - 1];
      ConcatTo(front, k);
      assert front[..k + 1] == lines[..k + 1];
    }
  }

  lemma {:induction false} ConcatAppend(a: seq<string>, b: seq<string>)
    ensures Concat(a + b) == Concat(a) + Concat(b)
  {
    if b == [] {
      assert a + b == a;
    } else {
      var front := b[..|b| - 1];
      assert (a + b)[..|a + b| - 1] == a + front;
      ConcatAppend(a, front);
    }
  }

  function Join(separator: string, parts: seq<string>): string
  {
    if parts == [] then ""
    else if |parts| == 1 then parts[0]
    else parts[0] + separator + Join(separator, parts[1..])
  }

  lemma {:induction false} JoinSnoc(separator: string, parts: seq<string>, part: string)
    requires parts != []
    ensures Join(separator, parts + [part]) == Join(separator, parts) + separator + part
  {
    assert (parts + [part])[1..] == parts[1..] + [part];
    if |parts| > 1 {
      JoinSnoc(separator, parts[1..], part);
    }
  }

  lemma JoinOne(separator: string, part: string)
    ensures Join(separator, [part]) == part
  {
  }

  lemma JoinUnfolds(separator: string, parts: seq<string>)
    requires |parts| > 1
    ensures Join(separator, parts) == parts[0] + separator + Join(separator, parts[1..])
  {
  }

  /** Joining adds nothing but the separators. */
  lemma {:induction false} InkJoin(separator: string, parts: seq<string>)
    requires IsBlank(separator)
    ensures Ink(Join(separator, parts)) == Ink(Concat(parts))
  {
    hide Ink, Join, Concat;
    if parts == [] {
      JoinNothing(separator);
    } else {
      var front, last := parts[..|parts| - 1], parts[|parts| - 1];
      assert parts == front + [last];
      ConcatSnoc(front, last);
      InkAppend(Concat(front), last);
      if front == [] {
        assert parts == [last];
        JoinOne(separator, last);
        ConcatOne(last);
      } else {
        InkJoin(separator, front);
        JoinSnoc(separator, front, last);
        InkAppend(Join(separator, front) + separator, last);
        InkAppend(Join(separator, front), separator);
      }
    }
  }

  lemma JoinNothing(separator: string)
    ensures Join(separator, []) == Concat([]) == ""
  {
  }

  // ---------------------------------------------------------------------------
  // Numbers
  // ---------------------------------------------------------------------------

  function Digit(n: nat): char
    requires n < 10
  {
    ('0' as int + n) as char
  }

  function Decimal(n: nat): (s: string)
    ensures s != ""
  {
    if n < 10 then [Digit(n)] else Decimal(n / 10) + [Digit(n % 10)]
  }

  /** `str` of an integer. */
  function IntText(n: int): (s: string)
    ensures s != ""
  {
    if n < 0 then "-" + Decimal(-n) else Decimal(n)
  }

  // ---------------------------------------------------------------------------
  // Splitting
  // ---------------------------------------------------------------------------

  predicate OccursAt(separator: string, s: string, i: nat)
  {
    i + |separator| <= |s| && s[i..i + |separator|] == separator
  }

  function FindFrom(separator: string, s: string, from: nat): (r: Option<nat>)
    requires from <= |s|
    ensures r.Some? ==> from <= r.value && OccursAt(separator, s, r.value)
                        && forall j: nat :: from <= j < r.value ==> !OccursAt(separator, s, j)
    ensures r.None? ==> forall j: nat :: from <= j ==> !OccursAt(separator, s, j)
    decreases |s| - from
  {
    if OccursAt(separator, s, from) then Some(from)
    else if from < |s| then FindFrom(separator, s, from + 1)
    else None
  }

  /** `str.split(separator)`: cut at the occurrences found from the left. */
  function Split(separator: string, s: string): (r: seq<string>)
    requires separator != ""
    ensures r != []
    decreases |s|
  {
    var at := FindFrom(separator, s, 0);
    if at.None? then [s]
    else [s[..at.value]] + Split(separator, s[at.value + |separator|..])
  }

  /** Splitting loses nothing: joining the pieces gives the text back. */
  lemma {:induction false} SplitJoin(separator: string, s: string)
    requires separator != ""
    ensures Join(separator, Split(separator, s)) == s
    decreases |s|
  {
    var at := FindFrom(separator, s, 0);
    if at.Some? {
      SplitJoin(separator, s[at.value + |separator|..]);
      assert s == s[..at.value] + separator + s[at.value + |separator|..];
    }
  }

  /** No piece contains the separator. */
  lemma {:induction false} SplitFree(separator: string, s: string, piece: string, i: nat)
    requires separator != "" && piece in Split(separator, s)
    ensures !OccursAt(separator, piece, i)
    decreases |s|
  {
    var at := FindFrom(separator, s, 0);
    if at.None? {
      assert piece == s;
    } else if piece == s[..at.value] {
      OccursInPrefix(separator, s, at.value, i);
    } else {
      SplitFree(separator, s[at.value + |separator|..], piece, i);
    }
  }

  lemma OccursInPrefix(separator: string, s: string, end: nat, i: nat)
    requires end <= |s| && separator != ""
    ensures OccursAt(separator, s[..end], i) ==> i < end && OccursAt(separator, s, i)
  {
    if OccursAt(separator, s[..end], i) {
      assert s[..end][i..i + |separator|] == s[i..i + |separator|];
    }
  }

  /** Joining with a character that no part contains can be undone. */
  lemma {:induction false} JoinSplit(c: char, parts: seq<string>)
    requires parts != [] && forall p :: p in parts ==> c !in p
    ensures Split([c], Join([c], parts)) == parts
  {
    hide Join, FindFrom, OccursAt;
    var head := parts[0];
    if |parts| == 1 {
      assert parts == [head];
      JoinOne([c], head);
      NoneFound(c, head);
    } else {
      var rest := Join([c], parts[1..]);
      JoinUnfolds([c], parts);
      FoundAfter(c, head, rest);
      assert (head + [c] + rest)[..|head|] == head && (head + [c] + rest)[|head| + 1..] == rest;
      JoinSplit(c, parts[1..]);
    }
  }

  lemma OccursOne(c: char, s: string, i: nat)
    ensures OccursAt([c], s, i) <==> i < |s| && s[i] == c
  {
    if i < |s| {
      assert s[i..i + 1] == [s[i]];
    }
  }

  lemma NoneFound(c: char, s: string)
    requires c !in s
    ensures FindFrom([c], s, 0) == None
  {
    hide FindFrom, OccursAt;
    forall j: nat
      ensures !OccursAt([c], s, j)
    {
      OccursOne(c, s, j);
    }
  }

  lemma FoundAfter(c: char, head: string, rest: string)
    requires c !in head
    ensures FindFrom([c], head + [c] + rest, 0) == Some(|head|)
  {
    hide FindFrom, OccursAt;
    var s := head + [c] + rest;
    forall j: nat | j < |head|
      ensures !OccursAt([c], s, j)
    {
      OccursOne(c, s, j);
      assert s[j] == head[j];
    }
    OccursOne(c, s, |head|);
  }
}
