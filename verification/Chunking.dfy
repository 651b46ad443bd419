/**
  Splitting oversized sections below the heading level, under a token limit. The tokenizer is
  any function from texts to counts.
 */
module Chunking {
  import opened Options
  import opened Texts
  import opened Sections

  type Tokenizer = string -> nat

  datatype Overflow = BadLimit | Pieces(pieces: seq<string>)

  const PARAGRAPH := "\n\n"
  const LINE := "\n"

  function Sum(count: Tokenizer, parts: seq<string>): nat
  {
    if parts == [] then 0 else Sum(count, parts[..|parts| - 1]) + count(parts[|parts| - 1])
  }

  lemma SumSnoc(count: Tokenizer, parts: seq<string>, part: string)
    ensures Sum(count, parts + [part]) == Sum(count, parts) + count(part)
  {
    assert (parts + [part])[..|parts|] == parts;
  }

  lemma SumOne(count: Tokenizer, part: string)
    ensures Sum(count, [part]) == count(part)
  {
    assert [part][..0] == [];
  }

  // ---------------------------------------------------------------------------
  // What a tokenizer may be
  // ---------------------------------------------------------------------------

  /** Joined texts never cost more than they do apart. */
  ghost predicate Subadditive(count: Tokenizer, separator: string)
  {
    forall a: string, b: string {:trigger a + separator + b} :: count(a + separator + b) <= count(a) + count(b)
  }

  /** Text that is added never saves tokens. */
  ghost predicate Monotone(count: Tokenizer)
  {
    forall a: string, b: string {:trigger a + PARAGRAPH + b} :: count(a) <= count(a + PARAGRAPH + b)
  }

  /** A blank line instead of a line end never saves tokens. */
  ghost predicate WideGap(count: Tokenizer)
  {
    forall parts: seq<string> :: count(Join(LINE, parts)) <= count(Join(PARAGRAPH, parts))
  }

  ghost predicate BlankFits(count: Tokenizer, maxTokens: int)
  {
    forall s: string {:trigger IsBlank(s)} :: IsBlank(s) ==> count(s) <= maxTokens
  }

  ghost predicate CountsSubadditively(count: Tokenizer)
  {
    Subadditive(count, LINE) && Subadditive(count, PARAGRAPH)
  }

  /** Line ends only separate: they neither join words nor save tokens. */
  ghost predicate CountsWords(count: Tokenizer, maxTokens: int)
  {
    CountsSubadditively(count) && Monotone(count) && WideGap(count) && BlankFits(count, maxTokens)
  }

  lemma {:induction false} JoinWithin(count: Tokenizer, separator: string, parts: seq<string>)
    requires Subadditive(count, separator) && parts != []
    ensures count(Join(separator, parts)) <= Sum(count, parts)
  {
    var front, last := parts[..|parts| - 1], parts[|parts| - 1];
    assert parts == front + [last];
    SumSnoc(count, front, last);
    if front != [] {
      JoinWithin(count, separator, front);
      JoinSnoc(separator, front, last);
    }
  }

  // ---------------------------------------------------------------------------
  // Lines of one paragraph
  // ---------------------------------------------------------------------------

  function Joined(separator: string, groups: seq<seq<string>>): (r: seq<string>)
    ensures |r| == |groups|
  {
    seq(|groups|, i requires 0 <= i < |groups| => Join(separator, groups[i]))
  }

  function Flatten<T>(groups: seq<seq<T>>): seq<T>
  {
    if groups == [] then [] else Flatten(groups[..|groups| - 1]) + groups[|groups| - 1]
  }

  lemma FlattenSnoc<T>(groups: seq<seq<T>>, g: seq<T>)
    ensures Flatten(groups + [g]) == Flatten(groups) + g
  {
    assert (groups + [g])[..|groups|] == groups;
  }

  /** A group is within the limit unless it is a single item, and its successor did not fit in. */
  ghost predicate Greedy(count: Tokenizer, maxTokens: int, groups: seq<seq<string>>)
  {
    && (forall i :: 0 <= i < |groups| ==> groups[i] != [] && (|groups[i]| == 1 || Sum(count, groups[i]) <= maxTokens))
    && (forall i, j :: 0 <= i && j == i + 1 && j < |groups| ==> Sum(count, groups[i]) + count(groups[j][0]) > maxTokens)
  }

  lemma GreedySnoc(count: Tokenizer, maxTokens: int, groups: seq<seq<string>>, g: seq<string>)
    requires Greedy(count, maxTokens, groups)
    requires g != [] && (|g| == 1 || Sum(count, g) <= maxTokens)
    requires groups != [] ==> Sum(count, groups[|groups| - 1]) + count(g[0]) > maxTokens
    ensures Greedy(count, maxTokens, groups + [g])
  {
    hide Sum;
    var longer := groups + [g];
    forall i | 0 <= i < |longer|
      ensures longer[i] != [] && (|longer[i]| == 1 || Sum(count, longer[i]) <= maxTokens)
    {
      assert longer[i] == if i < |groups| then groups[i] else g;
    }
    forall i, j | 0 <= i && j == i + 1 && j < |longer|
      ensures Sum(count, longer[i]) + count(longer[j][0]) > maxTokens
    {
      assert longer[i] == groups[i] && longer[j] == if j < |groups| then groups[j] else g;
    }
  }

  /** `groups` are consecutive lines of the paragraph, packed greedily. */
  ghost predicate IsPacking(count: Tokenizer, maxTokens: int, para: string, groups: seq<seq<string>>)
  {
    Flatten(groups) == Split(LINE, para) && Greedy(count, maxTokens, groups)
  }

  /** The groups closed so far and the open one are packed greedily. */
  ghost predicate Packing(count: Tokenizer, maxTokens: int, groups: seq<seq<string>>, buf: seq<string>, size: nat)
  {
    && Greedy(count, maxTokens, groups)
    && size == Sum(count, buf) && (|buf| <= 1 || size <= maxTokens) && (buf == [] ==> groups == [])
    && (groups != [] && buf != [] ==> Sum(count, groups[|groups| - 1]) + count(buf[0]) > maxTokens)
  }

  lemma PackingStarts(count: Tokenizer, maxTokens: int)
    ensures Packing(count, maxTokens, [], [], 0) && Joined(LINE, []) == [] && Flatten<string>([]) == []
  {
  }

  lemma PackingCloses(count: Tokenizer, maxTokens: int, groups: seq<seq<string>>, buf: seq<string>, size: nat)
    requires Packing(count, maxTokens, groups, buf, size) && buf != []
    ensures Greedy(count, maxTokens, groups + [buf])
  {
    GreedySnoc(count, maxTokens, groups, buf);
  }

  lemma PackingTurns(count: Tokenizer, maxTokens: int, groups: seq<seq<string>>, buf: seq<string>, size: nat,
          line: string)
    requires Packing(count, maxTokens, groups, buf, size) && buf != [] && size + count(line) > maxTokens
    ensures Packing(count, maxTokens, groups + [buf], [line], count(line))
  {
    hide Greedy;
    PackingCloses(count, maxTokens, groups, buf, size);
    SumOne(count, line);
  }

  lemma PackingGrows(count: Tokenizer, maxTokens: int, groups: seq<seq<string>>, buf: seq<string>, size: nat,
          line: string)
    requires Packing(count, maxTokens, groups, buf, size) && (buf == [] || size + count(line) <= maxTokens)
    ensures Packing(count, maxTokens, groups, buf + [line], size + count(line))
  {
    hide Greedy;
    SumSnoc(count, buf, line);
  }

  /** The pieces are consecutive lines of the paragraph, packed greedily and joined again. */
  ghost predicate AreLinesOf(count: Tokenizer, maxTokens: int, para: string, pieces: seq<string>)
  {
    exists groups :: IsPacking(count, maxTokens, para, groups) && pieces == Joined(LINE, groups)
  }

  method SplitLongPara(count: Tokenizer, maxTokens: int, para: string) returns (parts: seq<string>)
    ensures AreLinesOf(count, maxTokens, para, parts)
  {
    hide Greedy, Flatten, Sum, Join, Split, Packing, Joined;
    var lines := Split(LINE, para);
    parts := [];
    ghost var groups: seq<seq<string>> := [];
    var buf: seq<string> := [];
    var size: nat := 0;
    PackingStarts(count, maxTokens);
    for i := 0 to |lines|
      invariant Packing(count, maxTokens, groups, buf, size)
      invariant parts == Joined(LINE, groups) && Flatten(groups) + buf == lines[..i]
      invariant buf == [] <==> i == 0
    {
      var line := lines[i];
      assert lines[..i + 1] == lines[..i] + [line];
      var lt := count(line);
      if buf != [] && size + lt > maxTokens {
        PackingTurns(count, maxTokens, groups, buf, size, line);
        FlattenSnoc(groups, buf);
        JoinedSnoc(LINE, groups, buf);
        parts, groups := parts + [Join(LINE, buf)], groups + [buf];
        buf := [line];
        size := lt;
      } else {
        PackingGrows(count, maxTokens, groups, buf, size, line);
        buf := buf + [line];
        size := size + lt;
      }
    }
    assert lines[..|lines|] == lines;
    if buf != [] {
      PackingCloses(count, maxTokens, groups, buf, size);
      FlattenSnoc(groups, buf);
      JoinedSnoc(LINE, groups, buf);
      parts, groups := parts + [Join(LINE, buf)], groups + [buf];
    }
  }

  lemma {:induction false} JoinAppend(separator: string, a: seq<string>, b: seq<string>)
    requires a != [] && b != []
    ensures Join(separator, a + b) == Join(separator, a) + separator + Join(separator, b)
  {
    hide Join;
    var front, last := b[..|b| - 1], b[|b| - 1];
    assert b == front + [last];
    if front == [] {
      JoinSnoc(separator, a, last);
      JoinOne(separator, last);
      assert b == [last];
    } else {
      assert a + b == (a + front) + [last];
      JoinAppend(separator, a, front);
      JoinSnoc(separator, a + front, last);
      JoinSnoc(separator, front, last);
    }
  }

  /** Joining group by group is joining at once. */
  lemma {:induction false} JoinGroups(separator: string, groups: seq<seq<string>>)
    requires forall i :: 0 <= i < |groups| ==> groups[i] != []
    ensures Join(separator, Joined(separator, groups)) == Join(separator, Flatten(groups))
    ensures groups != [] ==> Flatten(groups) != []
  {
    hide Join, Joined, Flatten;
    if groups == [] {
      NothingJoined(separator);
    } else {
      var front, last := groups[..|groups| - 1], groups[|groups| - 1];
      assert groups == front + [last];
      JoinGroups(separator, front);
      JoinedSnoc(separator, front, last);
      FlattenSnoc(front, last);
      if front == [] {
        NothingJoined(separator);
        JoinOne(separator, Join(separator, last));
        assert [] + last == last && [] + [Join(separator, last)] == [Join(separator, last)];
      } else {
        JoinSnoc(separator, Joined(separator, front), Join(separator, last));
        JoinAppend(separator, Flatten(front), last);
      }
    }
  }

  lemma NothingJoined(separator: string)
    ensures Joined(separator, []) == [] && Flatten<string>([]) == []
  {
  }

  lemma JoinedSnoc(separator: string, groups: seq<seq<string>>, g: seq<string>)
    ensures Joined(separator, groups + [g]) == Joined(separator, groups) + [Join(separator, g)]
  {
    hide Join;
  }

  /** The pieces of a paragraph, joined by line ends, are the paragraph. */
  lemma PackingJoins(count: Tokenizer, maxTokens: int, para: string, groups: seq<seq<string>>)
    requires IsPacking(count, maxTokens, para, groups)
    ensures Join(LINE, Joined(LINE, groups)) == para && groups != []
  {
    hide Join, Split, Sum;
    SplitJoin(LINE, para);
    JoinGroups(LINE, groups);
  }

  /** Within the limit, or a whole line of the paragraph. */
  lemma PiecesFit(count: Tokenizer, maxTokens: int, para: string, groups: seq<seq<string>>, i: nat)
    requires IsPacking(count, maxTokens, para, groups) && Subadditive(count, LINE) && i < |groups|
    ensures var piece := Joined(LINE, groups)[i]; count(piece) <= maxTokens || piece in Split(LINE, para)
  {
    hide Split, Subadditive, Flatten;
    var g := groups[i];
    if |g| == 1 {
      assert Join(LINE, g) == g[0];
      InFlatten(groups, i, g[0]);
    } else {
      JoinWithin(count, LINE, g);
    }
  }

  lemma {:induction false} InFlatten<T>(groups: seq<seq<T>>, i: nat, x: T)
    requires i < |groups| && x in groups[i]
    ensures x in Flatten(groups)
    decreases |groups|
  {
    if i < |groups| - 1 {
      InFlatten(groups[..|groups| - 1], i, x);
    }
  }

  /** A paragraph of several lines beyond the limit really is split. */
  lemma LongIsSplit(count: Tokenizer, maxTokens: int, para: string, groups: seq<seq<string>>)
    requires IsPacking(count, maxTokens, para, groups) && Subadditive(count, LINE)
    requires count(para) > maxTokens && |Split(LINE, para)| > 1
    ensures |groups| > 1
  {
    hide Split, Subadditive;
    PackingJoins(count, maxTokens, para, groups);
    if |groups| == 1 {
      OneGroup(LINE, groups);
      JoinWithin(count, LINE, groups[0]);
    }
  }

  lemma OneGroup(separator: string, groups: seq<seq<string>>)
    requires |groups| == 1
    ensures Flatten(groups) == groups[0] && Joined(separator, groups) == [Join(separator, groups[0])]
  {
    assert groups[..0] == [];
  }

  /** A paragraph of one line is not. */
  lemma OneLineIsWhole(count: Tokenizer, maxTokens: int, para: string, groups: seq<seq<string>>)
    requires IsPacking(count, maxTokens, para, groups) && |Split(LINE, para)| == 1
    ensures Joined(LINE, groups) == [para] && Split(LINE, para) == [para]
  {
    hide Sum;
    PackingJoins(count, maxTokens, para, groups);
    SplitJoin(LINE, para);
    LengthsAdd(groups);
  }

  lemma {:induction false} LengthsAdd(groups: seq<seq<string>>)
    requires forall i :: 0 <= i < |groups| ==> groups[i] != []
    ensures |Flatten(groups)| >= |groups|
  {
    if groups != [] {
      LengthsAdd(groups[..|groups| - 1]);
    }
  }

  // ---------------------------------------------------------------------------
  // Paragraphs of one text
  // ---------------------------------------------------------------------------

  predicate Fits(count: Tokenizer, maxTokens: int, para: string)
  {
    count(para) <= maxTokens
  }

  /** Beyond the limit although it has line ends to be split at. */
  predicate IsLong(count: Tokenizer, maxTokens: int, para: string)
  {
    count(para) > maxTokens && |Split(LINE, para)| > 1
  }

  ghost predicate SomeFits(count: Tokenizer, maxTokens: int, paras: seq<string>)
  {
    exists i :: 0 <= i < |paras| && Fits(count, maxTokens, paras[i])
  }

  /** A paragraph that would have to be split comes after one that fits. */
  ghost predicate LateLong(count: Tokenizer, maxTokens: int, paras: seq<string>)
  {
    exists i, j :: 0 <= i < j < |paras| && Fits(count, maxTokens, paras[i]) && IsLong(count, maxTokens, paras[j])
  }

  lemma SomeFitsMore(count: Tokenizer, maxTokens: int, paras: seq<string>, para: string)
    ensures SomeFits(count, maxTokens, paras + [para]) <==>
            SomeFits(count, maxTokens, paras) || Fits(count, maxTokens, para)
  {
    var more := paras + [para];
    assert more[|paras|] == para;
    assert forall i :: 0 <= i < |paras| ==> more[i] == paras[i];
  }

  lemma LateLongMore(count: Tokenizer, maxTokens: int, paras: seq<string>, para: string)
    ensures LateLong(count, maxTokens, paras + [para])
       <==> LateLong(count, maxTokens, paras) || (SomeFits(count, maxTokens, paras) && IsLong(count, maxTokens, para))
  {
    hide Fits, IsLong;
    var more := paras + [para];
    assert more[|paras|] == para;
    assert forall i :: 0 <= i < |paras| ==> more[i] == paras[i];
    if LateLong(count, maxTokens, more) {
      var i, j :| 0 <= i < j < |more| && Fits(count, maxTokens, more[i]) && IsLong(count, maxTokens, more[j]);
      assert Fits(count, maxTokens, paras[i]);
    }
  }

  /** A whole line of a paragraph that is beyond the limit. */
  ghost predicate IsExcused(count: Tokenizer, maxTokens: int, paras: seq<string>, chunk: string)
  {
    exists para :: para in paras && count(para) > maxTokens && chunk in Split(LINE, para)
  }

  ghost predicate Within(count: Tokenizer, maxTokens: int, paras: seq<string>, chunk: string)
  {
    count(chunk) <= maxTokens || IsExcused(count, maxTokens, paras, chunk)
  }

  ghost predicate AllWithin(count: Tokenizer, maxTokens: int, paras: seq<string>, chunks: seq<string>)
  {
    forall c :: c in chunks ==> Within(count, maxTokens, paras, c)
  }

  /** What the buffer holds as long as no split paragraph was put back into it. */
  ghost predicate Orderly(count: Tokenizer, maxTokens: int, paras: seq<string>, buf: seq<string>, size: nat)
  {
    || (size == Sum(count, buf) && size <= maxTokens)
    || (|buf| == 1 && size == count(buf[0]) && size > maxTokens && IsExcused(count, maxTokens, paras, buf[0]))
  }

  /** A chunk of several lines beyond the limit is out, or sure to come out. */
  ghost predicate Overfull(count: Tokenizer, maxTokens: int, parts: seq<string>, buf: seq<string>, size: nat)
  {
    || (exists p :: p in parts && IsOverlong(count, maxTokens, p))
    || (|buf| > 1 && size >= maxTokens && count(Join(PARAGRAPH, buf)) > maxTokens)
  }

  ghost predicate IsOverlong(count: Tokenizer, maxTokens: int, chunk: string)
  {
    count(chunk) > maxTokens && exists i: nat :: OccursAt(LINE, chunk, i)
  }

  lemma OverlongNotWithin(count: Tokenizer, maxTokens: int, paras: seq<string>, chunk: string)
    requires IsOverlong(count, maxTokens, chunk)
    ensures !Within(count, maxTokens, paras, chunk)
  {
    hide Split, OccursAt;
    var i: nat :| OccursAt(LINE, chunk, i);
    forall para | para in paras && count(para) > maxTokens && chunk in Split(LINE, para)
      ensures false
    {
      SplitFree(LINE, para, chunk, i);
    }
  }

  lemma LinesOf(count: Tokenizer, maxTokens: int, para: string, pieces: seq<string>)
    requires AreLinesOf(count, maxTokens, para, pieces) && count(para) > maxTokens
    ensures pieces != [] && Join(LINE, pieces) == para
    ensures Subadditive(count, LINE) ==> forall p :: p in pieces ==> count(p) <= maxTokens || p in Split(LINE, para)
    ensures Subadditive(count, LINE) && IsLong(count, maxTokens, para) ==> |pieces| > 1
    ensures !IsLong(count, maxTokens, para) ==> pieces == [para] == Split(LINE, para)
  {
    hide IsPacking, Subadditive, Join, Split, Joined;
    var groups :| IsPacking(count, maxTokens, para, groups) && pieces == Joined(LINE, groups);
    PackingJoins(count, maxTokens, para, groups);
    if Subadditive(count, LINE) {
      forall p | p in pieces
        ensures count(p) <= maxTokens || p in Split(LINE, para)
      {
        var i :| 0 <= i < |pieces| && pieces[i] == p;
        PiecesFit(count, maxTokens, para, groups, i);
      }
    }
    if |Split(LINE, para)| > 1 {
      if Subadditive(count, LINE) {
        LongIsSplit(count, maxTokens, para, groups);
      }
    } else {
      OneLineIsWhole(count, maxTokens, para, groups);
    }
  }

  /** One paragraph enters the buffer or closes it. */
  ghost predicate Steps(count: Tokenizer, maxTokens: int, para: string, parts: seq<string>, buf: seq<string>, size: nat,
          parts': seq<string>, buf': seq<string>, size': nat)
  {
    if buf != [] && size + count(para) > maxTokens then
      && parts' == parts + [Join(PARAGRAPH, buf)]
      && (if Fits(count, maxTokens, para) then buf' == [para] else AreLinesOf(count, maxTokens, para, buf'))
      && size' == if |buf'| == 1 then count(buf'[0]) else maxTokens
    else if !Fits(count, maxTokens, para) then
      && buf' == [] && size' == 0
      && exists pieces :: AreLinesOf(count, maxTokens, para, pieces) && parts' == parts + pieces
    else
      parts' == parts && buf' == buf + [para] && size' == size + count(para)
  }

  method AppendParagraph(count: Tokenizer, maxTokens: int, para: string, parts: seq<string>, buf: seq<string>,
          size: nat)
    returns (parts': seq<string>, buf': seq<string>, size': nat)
    requires maxTokens > 0
    ensures Steps(count, maxTokens, para, parts, buf, size, parts', buf', size')
  {
    hide AreLinesOf, Join;
    var paraTokens := count(para);
    if buf != [] && size + paraTokens > maxTokens {
      parts' := parts + [Join(PARAGRAPH, buf)];
      if paraTokens <= maxTokens {
        buf' := [para];
      } else {
        buf' := SplitLongPara(count, maxTokens, para);
      }
      size' := if |buf'| == 1 then count(buf'[0]) else maxTokens;
    } else if paraTokens > maxTokens {
      parts' := parts;
      if buf != [] {
        parts' := parts' + [Join(PARAGRAPH, buf)];
      }
      var pieces := SplitLongPara(count, maxTokens, para);
      parts', buf', size' := parts' + pieces, [], 0;
    } else {
      parts', buf', size' := parts, buf + [para], size + paraTokens;
    }
  }

  // Conservation

  lemma InkParts(parts: seq<string>, part: string)
    ensures Ink(Concat(parts + [part])) == Ink(Concat(parts)) + Ink(part)
  {
    ConcatSnoc(parts, part);
    InkAppend(Concat(parts), part);
  }

  lemma InkLines(para: string, pieces: seq<string>)
    requires Join(LINE, pieces) == para
    ensures Ink(Concat(pieces)) == Ink(para)
  {
    InkJoin(LINE, pieces);
  }

  lemma InkTurn(parts: seq<string>, buf: seq<string>, para: string, buf': seq<string>)
    requires buf' == [para] || (buf' != [] && Join(LINE, buf') == para)
    ensures Ink(Concat(parts + [Join(PARAGRAPH, buf)])) + Ink(Concat(buf'))
            == Ink(Concat(parts)) + Ink(Concat(buf)) + Ink(para)
  {
    hide Ink, Concat, Join;
    InkParts(parts, Join(PARAGRAPH, buf));
    InkJoin(PARAGRAPH, buf);
    if buf' == [para] {
      ConcatOne(para);
    } else {
      InkLines(para, buf');
    }
  }

  lemma InkSplit(parts: seq<string>, para: string, pieces: seq<string>)
    requires Join(LINE, pieces) == para
    ensures Ink(Concat(parts + pieces)) == Ink(Concat(parts)) + Ink(para)
  {
    hide Ink, Concat, Join;
    InkLines(para, pieces);
    ConcatAppend(parts, pieces);
    InkAppend(Concat(parts), Concat(pieces));
  }

  lemma InkNone()
    ensures Ink(Concat([])) == ""
  {
  }

  /** Nothing but white space is lost in a step. */
  lemma StepKeepsInk(count: Tokenizer, maxTokens: int, para: string, parts: seq<string>, buf: seq<string>, size: nat,
          parts': seq<string>, buf': seq<string>, size': nat)
    requires Steps(count, maxTokens, para, parts, buf, size, parts', buf', size')
    ensures Ink(Concat(parts')) + Ink(Concat(buf')) == Ink(Concat(parts)) + Ink(Concat(buf)) + Ink(para)
  {
    hide Ink, Concat, Join, Split, AreLinesOf, IsLong, Subadditive;
    if buf != [] && size + count(para) > maxTokens {
      if !Fits(count, maxTokens, para) {
        LinesOf(count, maxTokens, para, buf');
      }
      InkTurn(parts, buf, para, buf');
    } else if !Fits(count, maxTokens, para) {
      var pieces :| AreLinesOf(count, maxTokens, para, pieces) && parts' == parts + pieces;
      LinesOf(count, maxTokens, para, pieces);
      InkSplit(parts, para, pieces);
      InkNone();
    } else {
      InkParts(buf, para);
    }
  }

  lemma StepFills(count: Tokenizer, maxTokens: int, para: string, parts: seq<string>, buf: seq<string>, size: nat,
          parts': seq<string>, buf': seq<string>, size': nat)
    requires Steps(count, maxTokens, para, parts, buf, size, parts', buf', size')
    ensures buf' != [] <==> buf != [] || Fits(count, maxTokens, para)
  {
    hide Join, Split, AreLinesOf, IsLong, Subadditive;
    if buf != [] && size + count(para) > maxTokens && !Fits(count, maxTokens, para) {
      LinesOf(count, maxTokens, para, buf');
    }
  }

  // The limit

  lemma WithinMore(count: Tokenizer, maxTokens: int, paras: seq<string>, para: string, chunk: string)
    ensures IsExcused(count, maxTokens, paras, chunk) ==> IsExcused(count, maxTokens, paras + [para], chunk)
    ensures count(para) > maxTokens && chunk in Split(LINE, para) ==> IsExcused(count, maxTokens, paras + [para], chunk)
  {
    hide Split;
    assert para in paras + [para];
    if IsExcused(count, maxTokens, paras, chunk) {
      var p :| p in paras && count(p) > maxTokens && chunk in Split(LINE, p);
      assert p in paras + [para];
    }
  }

  lemma AllWithinMore(count: Tokenizer, maxTokens: int, paras: seq<string>, para: string, chunks: seq<string>,
          more: seq<string>)
    requires AllWithin(count, maxTokens, paras, chunks)
    requires forall c :: c in more ==>
             Within(count, maxTokens, paras, c) || (count(para) > maxTokens && c in Split(LINE, para))
    ensures AllWithin(count, maxTokens, paras + [para], chunks + more)
  {
    hide Split, IsExcused;
    forall c | c in chunks + more
      ensures Within(count, maxTokens, paras + [para], c)
    {
      WithinMore(count, maxTokens, paras, para, c);
      assert c in chunks || c in more;
    }
  }

  lemma OrderlyJoin(count: Tokenizer, maxTokens: int, paras: seq<string>, buf: seq<string>, size: nat)
    requires Orderly(count, maxTokens, paras, buf, size) && Subadditive(count, PARAGRAPH) && buf != []
    ensures Within(count, maxTokens, paras, Join(PARAGRAPH, buf))
  {
    hide IsExcused, Subadditive, Sum;
    JoinWithin(count, PARAGRAPH, buf);
  }

  /** Until a split paragraph is put back, chunks within the limit and lines beyond it stay apart. */
  lemma OrderlyStep(count: Tokenizer, maxTokens: int, paras: seq<string>, para: string, parts: seq<string>,
          buf: seq<string>, size: nat, parts': seq<string>, buf': seq<string>, size': nat)
    requires Steps(count, maxTokens, para, parts, buf, size, parts', buf', size') && maxTokens > 0
    requires CountsSubadditively(count) && AllWithin(count, maxTokens, paras, parts)
             && Orderly(count, maxTokens, paras, buf, size)
    requires buf != [] ==> !IsLong(count, maxTokens, para)
    ensures AllWithin(count, maxTokens, paras + [para], parts')
            && Orderly(count, maxTokens, paras + [para], buf', size')
  {
    hide AreLinesOf, IsExcused, Subadditive, AllWithin, Join, Split, Sum, Within;
    SumOne(count, para);
    SumSnoc(count, buf, para);
    SumNone(count);
    if buf != [] && size + count(para) > maxTokens {
      OrderlyJoin(count, maxTokens, paras, buf, size);
      AllWithinMore(count, maxTokens, paras, para, parts, [Join(PARAGRAPH, buf)]);
      if !Fits(count, maxTokens, para) {
        LinesOf(count, maxTokens, para, buf');
        WithinMore(count, maxTokens, paras, para, para);
      }
    } else if !Fits(count, maxTokens, para) {
      var pieces :| AreLinesOf(count, maxTokens, para, pieces) && parts' == parts + pieces;
      LinesOf(count, maxTokens, para, pieces);
      SplitWithin(count, maxTokens, paras, para, parts, pieces);
    } else {
      AllWithinMore(count, maxTokens, paras, para, parts, []);
      assert parts + [] == parts;
    }
  }

  lemma SumNone(count: Tokenizer)
    ensures Sum(count, []) == 0
  {
  }

  lemma SplitWithin(count: Tokenizer, maxTokens: int, paras: seq<string>, para: string, parts: seq<string>,
          pieces: seq<string>)
    requires AllWithin(count, maxTokens, paras, parts) && count(para) > maxTokens
    requires forall p :: p in pieces ==> count(p) <= maxTokens || p in Split(LINE, para)
    ensures AllWithin(count, maxTokens, paras + [para], parts + pieces)
  {
    hide IsExcused, Split;
    forall c | c in pieces
      ensures Within(count, maxTokens, paras, c) || (count(para) > maxTokens && c in Split(LINE, para))
    {
    }
    AllWithinMore(count, maxTokens, paras, para, parts, pieces);
  }

  lemma {:induction false} SeparatorOccurs(parts: seq<string>)
    requires |parts| > 1
    ensures OccursAt(LINE, Join(PARAGRAPH, parts), |parts[0]|)
  {
    hide Join;
    assert Join(PARAGRAPH, parts) == parts[0] + PARAGRAPH + Join(PARAGRAPH, parts[1..]) by {
      JoinUnfolds(PARAGRAPH, parts);
    }
  }

  lemma ComesOut(count: Tokenizer, maxTokens: int, parts: seq<string>, buf: seq<string>)
    requires |buf| > 1 && count(Join(PARAGRAPH, buf)) > maxTokens
    ensures IsOverlong(count, maxTokens, Join(PARAGRAPH, buf))
  {
    hide Join, OccursAt;
    SeparatorOccurs(buf);
  }

  /** Once split pieces are back in one buffer, a chunk beyond the limit comes out. */
  lemma OverfullStep(count: Tokenizer, maxTokens: int, para: string, parts: seq<string>, buf: seq<string>, size: nat,
          parts': seq<string>, buf': seq<string>, size': nat)
    requires Steps(count, maxTokens, para, parts, buf, size, parts', buf', size') && maxTokens > 0
    requires CountsWords(count, maxTokens)
    requires Overfull(count, maxTokens, parts, buf, size) || (buf != [] && IsLong(count, maxTokens, para))
    ensures Overfull(count, maxTokens, parts', buf', size')
  {
    hide AreLinesOf, Subadditive, Monotone, WideGap, BlankFits, Join, Split, Sum, IsOverlong;
    if p :| p in parts && IsOverlong(count, maxTokens, p) {
      assert p in parts';
    } else if buf != [] && IsLong(count, maxTokens, para) {
      LinesOf(count, maxTokens, para, buf');
      GapWidens(count, buf');
    } else if size + count(para) > maxTokens {
      ComesOut(count, maxTokens, parts, buf);
      assert Join(PARAGRAPH, buf) in parts';
    } else {
      JoinSnoc(PARAGRAPH, buf, para);
      Grows(count, Join(PARAGRAPH, buf), para);
    }
  }

  lemma GapWidens(count: Tokenizer, parts: seq<string>)
    requires WideGap(count)
    ensures count(Join(LINE, parts)) <= count(Join(PARAGRAPH, parts))
  {
  }

  lemma Grows(count: Tokenizer, a: string, b: string)
    requires Monotone(count)
    ensures count(a) <= count(a + PARAGRAPH + b)
  {
  }

  /** What is known after some of the paragraphs. */
  ghost predicate Progress(count: Tokenizer, maxTokens: int, paras: seq<string>, parts: seq<string>, buf: seq<string>,
          size: nat)
  {
    && (buf != [] <==> SomeFits(count, maxTokens, paras))
    && (CountsSubadditively(count) && !LateLong(count, maxTokens, paras) ==>
          AllWithin(count, maxTokens, paras, parts) && Orderly(count, maxTokens, paras, buf, size))
    && (CountsWords(count, maxTokens) && LateLong(count, maxTokens, paras) ==>
         Overfull(count, maxTokens, parts, buf, size))
  }

  lemma ProgressStarts(count: Tokenizer, maxTokens: int)
    requires maxTokens > 0
    ensures Progress(count, maxTokens, [], [], [], 0)
  {
  }

  lemma ProgressStep(count: Tokenizer, maxTokens: int, paras: seq<string>, para: string, parts: seq<string>,
          buf: seq<string>, size: nat, parts': seq<string>, buf': seq<string>, size': nat)
    requires Progress(count, maxTokens, paras, parts, buf, size) && maxTokens > 0
    requires Steps(count, maxTokens, para, parts, buf, size, parts', buf', size')
    ensures Progress(count, maxTokens, paras + [para], parts', buf', size')
  {
    hide Steps, SomeFits, LateLong, CountsSubadditively, CountsWords, AllWithin, Orderly, Overfull, IsLong, Fits;
    SomeFitsMore(count, maxTokens, paras, para);
    LateLongMore(count, maxTokens, paras, para);
    StepFills(count, maxTokens, para, parts, buf, size, parts', buf', size');
    if CountsSubadditively(count) && !LateLong(count, maxTokens, paras + [para]) {
      OrderlyStep(count, maxTokens, paras, para, parts, buf, size, parts', buf', size');
    }
    if CountsWords(count, maxTokens) && LateLong(count, maxTokens, paras + [para]) {
      OverfullStep(count, maxTokens, para, parts, buf, size, parts', buf', size');
    }
  }

  ghost function Closed(parts: seq<string>, buf: seq<string>): seq<string>
  {
    if buf == [] then parts else parts + [Join(PARAGRAPH, buf)]
  }

  function NonBlank(parts: seq<string>): (r: seq<string>)
    ensures forall p :: p in r <==> p in parts && !IsBlank(p)
  {
    if parts == [] then []
    else
      assert parts == parts[..|parts| - 1] + [parts[|parts| - 1]];
      NonBlank(parts[..|parts| - 1]) + if IsBlank(parts[|parts| - 1]) then [] else [parts[|parts| - 1]]
  }

  lemma {:induction false} NonBlankKeepsInk(parts: seq<string>)
    ensures Ink(Concat(NonBlank(parts))) == Ink(Concat(parts))
  {
    hide Ink, IsBlank, Concat;
    if parts != [] {
      var front, last := parts[..|parts| - 1], parts[|parts| - 1];
      NonBlankKeepsInk(front);
      assert parts == front + [last];
      InkParts(front, last);
      if !IsBlank(last) {
        InkParts(NonBlank(front), last);
      } else {
        assert NonBlank(parts) == NonBlank(front) && Ink(last) == "";
      }
    }
  }

  lemma ClosedKeepsInk(parts: seq<string>, buf: seq<string>)
    ensures Ink(Concat(Closed(parts, buf))) == Ink(Concat(parts)) + Ink(Concat(buf))
  {
    hide Ink, Concat, Join;
    if buf == [] {
      InkNone();
    } else {
      InkParts(parts, Join(PARAGRAPH, buf));
      InkJoin(PARAGRAPH, buf);
    }
  }

  /** All chunks are within the limit, unless and only unless a long paragraph came too late. */
  lemma ClosedWithin(count: Tokenizer, maxTokens: int, paras: seq<string>, parts: seq<string>, buf: seq<string>,
          size: nat)
    requires Progress(count, maxTokens, paras, parts, buf, size)
    ensures CountsSubadditively(count) && !LateLong(count, maxTokens, paras) ==>
            AllWithin(count, maxTokens, paras, NonBlank(Closed(parts, buf)))
    ensures CountsWords(count, maxTokens) && LateLong(count, maxTokens, paras) ==>
            !AllWithin(count, maxTokens, paras, NonBlank(Closed(parts, buf)))
  {
    hide SomeFits, LateLong, IsLong, Fits, Within, Orderly, Subadditive, Monotone, WideGap, Join, NonBlank, Sum,
      IsOverlong;
    var closed := Closed(parts, buf);
    if CountsSubadditively(count) && !LateLong(count, maxTokens, paras) {
      if buf != [] {
        OrderlyJoin(count, maxTokens, paras, buf, size);
      }
    }
    if CountsWords(count, maxTokens) && LateLong(count, maxTokens, paras) {
      if |buf| > 1 && count(Join(PARAGRAPH, buf)) > maxTokens {
        ComesOut(count, maxTokens, parts, buf);
        assert Join(PARAGRAPH, buf) in closed;
      }
      var p :| p in closed && IsOverlong(count, maxTokens, p);
      OverlongStays(count, maxTokens, p);
      OverlongNotWithin(count, maxTokens, paras, p);
      assert p in NonBlank(closed);
    }
  }

  lemma InkParagraphs(text: string)
    ensures Ink(Concat(Split(PARAGRAPH, text))) == Ink(text)
  {
    hide Ink, Concat, Split, Join;
    SplitJoin(PARAGRAPH, text);
    InkJoin(PARAGRAPH, Split(PARAGRAPH, text));
  }

  lemma OverlongStays(count: Tokenizer, maxTokens: int, chunk: string)
    requires IsOverlong(count, maxTokens, chunk) && BlankFits(count, maxTokens)
    ensures !IsBlank(chunk)
  {
  }

  // The run over the paragraphs

  /** What the paragraphs leave behind, one step each. */
  ghost predicate Ran(count: Tokenizer, maxTokens: int, paras: seq<string>, parts: seq<string>, buf: seq<string>,
          size: nat)
    decreases |paras|
  {
    if paras == [] then parts == [] && buf == [] && size == 0
    else
      exists parts0: seq<string>, buf0: seq<string>, size0: nat
        {:trigger Ran(count, maxTokens, paras[..|paras| - 1], parts0, buf0, size0)} ::
        && Ran(count, maxTokens, paras[..|paras| - 1], parts0, buf0, size0)
        && Steps(count, maxTokens, paras[|paras| - 1], parts0, buf0, size0, parts, buf, size)
  }

  lemma RanOn(count: Tokenizer, maxTokens: int, paras: seq<string>, para: string, parts: seq<string>, buf: seq<string>,
          size: nat, parts': seq<string>, buf': seq<string>, size': nat)
    requires Ran(count, maxTokens, paras, parts, buf, size)
    requires Steps(count, maxTokens, para, parts, buf, size, parts', buf', size')
    ensures Ran(count, maxTokens, paras + [para], parts', buf', size')
  {
    hide Steps;
    var more := paras + [para];
    assert more[..|more| - 1] == paras && more[|more| - 1] == para;
  }

  lemma RanNone(count: Tokenizer, maxTokens: int)
    ensures Ran(count, maxTokens, [], [], [], 0)
  {
  }

  /** A text within the limit is left whole; any other is what the run over its paragraphs leaves, blank parts aside. */
  ghost predicate IsSplitOf(count: Tokenizer, maxTokens: int, text: string, pieces: seq<string>)
  {
    if count(text) <= maxTokens then pieces == [text]
    else
      exists parts: seq<string>, buf: seq<string>, size: nat ::
        Ran(count, maxTokens, Split(PARAGRAPH, text), parts, buf, size) && pieces == NonBlank(Closed(parts, buf))
  }

  /** The leading paragraphs beyond the limit, each split on its own. */
  ghost predicate AreHeads(count: Tokenizer, maxTokens: int, paras: seq<string>, heads: seq<seq<string>>)
  {
    && |heads| == |paras|
    && forall i :: 0 <= i < |paras| ==>
         !Fits(count, maxTokens, paras[i]) && AreLinesOf(count, maxTokens, paras[i], heads[i])
  }

  /** From the first paragraph that fits, the paragraphs are packed greedily; before it, each is split on its own. */
  ghost predicate PackedFrom(count: Tokenizer, maxTokens: int, paras: seq<string>, m: nat, heads: seq<seq<string>>,
          groups: seq<seq<string>>, parts: seq<string>)
  {
    && m <= |paras| && (m < |paras| ==> Fits(count, maxTokens, paras[m]))
    && AreHeads(count, maxTokens, paras[..m], heads)
    && Flatten(groups) == paras[m..] && Greedy(count, maxTokens, groups)
    && parts == Flatten(heads) + Joined(PARAGRAPH, groups)
  }

  /** The same of a run that is under way, its buffer being the open group. */
  ghost predicate PackedSoFar(count: Tokenizer, maxTokens: int, paras: seq<string>, m: nat, heads: seq<seq<string>>,
          groups: seq<seq<string>>, parts: seq<string>, buf: seq<string>, size: nat)
  {
    && m <= |paras| && (m < |paras| ==> Fits(count, maxTokens, paras[m])) && (buf == [] ==> m == |paras|)
    && AreHeads(count, maxTokens, paras[..m], heads)
    && Flatten(groups) + buf == paras[m..] && Packing(count, maxTokens, groups, buf, size)
    && parts == Flatten(heads) + Joined(PARAGRAPH, groups)
  }

  lemma HeadsMore(count: Tokenizer, maxTokens: int, paras: seq<string>, heads: seq<seq<string>>, para: string,
          pieces: seq<string>)
    requires AreHeads(count, maxTokens, paras, heads)
    requires !Fits(count, maxTokens, para) && AreLinesOf(count, maxTokens, para, pieces)
    ensures AreHeads(count, maxTokens, paras + [para], heads + [pieces])
    ensures Flatten(heads + [pieces]) == Flatten(heads) + pieces
  {
    hide Fits, AreLinesOf;
    FlattenSnoc(heads, pieces);
  }

  lemma PackedTurns(count: Tokenizer, maxTokens: int, paras: seq<string>, m: nat, heads: seq<seq<string>>,
          groups: seq<seq<string>>, parts: seq<string>, buf: seq<string>, size: nat, para: string)
    requires PackedSoFar(count, maxTokens, paras, m, heads, groups, parts, buf, size)
    requires buf != [] && size + count(para) > maxTokens
    ensures PackedSoFar(count, maxTokens, paras + [para], m, heads, groups + [buf],
            parts + [Join(PARAGRAPH, buf)], [para], count(para))
  {
    hide Fits, AreHeads, Join, Joined, Packing, Flatten;
    PackingTurns(count, maxTokens, groups, buf, size, para);
    FlattenSnoc(groups, buf);
    JoinedSnoc(PARAGRAPH, groups, buf);
    assert (paras + [para])[..m] == paras[..m] && (paras + [para])[m..] == paras[m..] + [para];
  }

  lemma PackedSplits(count: Tokenizer, maxTokens: int, paras: seq<string>, m: nat, heads: seq<seq<string>>,
          groups: seq<seq<string>>, parts: seq<string>, size: nat, para: string, pieces: seq<string>)
    requires PackedSoFar(count, maxTokens, paras, m, heads, groups, parts, [], size)
    requires !Fits(count, maxTokens, para) && AreLinesOf(count, maxTokens, para, pieces)
    ensures PackedSoFar(count, maxTokens, paras + [para], m + 1, heads + [pieces], [], parts + pieces, [], 0)
  {
    hide Fits, AreHeads, AreLinesOf, Join, Joined, Greedy;
    NothingJoined(PARAGRAPH);
    PackingStarts(count, maxTokens);
    assert paras[..m] == paras && groups == [];
    HeadsMore(count, maxTokens, paras, heads, para, pieces);
    assert (paras + [para])[..m + 1] == paras + [para] && (paras + [para])[m + 1..] == [];
  }

  lemma PackedGrows(count: Tokenizer, maxTokens: int, paras: seq<string>, m: nat, heads: seq<seq<string>>,
          groups: seq<seq<string>>, parts: seq<string>, buf: seq<string>, size: nat, para: string)
    requires PackedSoFar(count, maxTokens, paras, m, heads, groups, parts, buf, size)
    requires Fits(count, maxTokens, para) && (buf == [] || size + count(para) <= maxTokens)
    ensures PackedSoFar(count, maxTokens, paras + [para], m, heads, groups, parts, buf + [para], size + count(para))
  {
    hide Fits, AreHeads, Join, Joined, Packing, Flatten;
    PackingGrows(count, maxTokens, groups, buf, size, para);
    assert (paras + [para])[..m] == paras[..m] && (paras + [para])[m..] == paras[m..] + [para];
  }

  lemma PackedStep(count: Tokenizer, maxTokens: int, paras: seq<string>, m: nat, heads: seq<seq<string>>,
          groups: seq<seq<string>>, parts: seq<string>, buf: seq<string>, size: nat, para: string,
          parts': seq<string>, buf': seq<string>, size': nat)
    returns (m': nat, heads': seq<seq<string>>, groups': seq<seq<string>>)
    requires PackedSoFar(count, maxTokens, paras, m, heads, groups, parts, buf, size)
    requires Steps(count, maxTokens, para, parts, buf, size, parts', buf', size')
    requires !LateLong(count, maxTokens, paras + [para])
    ensures PackedSoFar(count, maxTokens, paras + [para], m', heads', groups', parts', buf', size')
  {
    hide AreHeads, AreLinesOf, Join, Joined, Packing, Flatten, IsLong, LateLong, Subadditive, Split;
    if buf != [] && size + count(para) > maxTokens {
      if !Fits(count, maxTokens, para) {
        LateLongMore(count, maxTokens, paras, para);
        FirstFits(count, maxTokens, paras, m);
        LinesOf(count, maxTokens, para, buf');
      }
      PackedTurns(count, maxTokens, paras, m, heads, groups, parts, buf, size, para);
      m', heads', groups' := m, heads, groups + [buf];
    } else if !Fits(count, maxTokens, para) {
      var pieces :| AreLinesOf(count, maxTokens, para, pieces) && parts' == parts + pieces;
      PackedSplits(count, maxTokens, paras, m, heads, groups, parts, size, para, pieces);
      m', heads', groups' := m + 1, heads + [pieces], [];
    } else {
      PackedGrows(count, maxTokens, paras, m, heads, groups, parts, buf, size, para);
      m', heads', groups' := m, heads, groups;
    }
  }

  lemma FirstFits(count: Tokenizer, maxTokens: int, paras: seq<string>, m: nat)
    requires m < |paras| && Fits(count, maxTokens, paras[m])
    ensures SomeFits(count, maxTokens, paras)
  {
  }

  lemma {:induction false} RunIsPacked(count: Tokenizer, maxTokens: int, paras: seq<string>, parts: seq<string>,
          buf: seq<string>, size: nat)
    returns (m: nat, heads: seq<seq<string>>, groups: seq<seq<string>>)
    requires Ran(count, maxTokens, paras, parts, buf, size) && !LateLong(count, maxTokens, paras)
    ensures PackedSoFar(count, maxTokens, paras, m, heads, groups, parts, buf, size)
    decreases |paras|
  {
    hide Steps, PackedSoFar, LateLong, Fits, IsLong;
    if paras == [] {
      NothingPacked(count, maxTokens);
      m, heads, groups := 0, [], [];
    } else {
      var front, para := paras[..|paras| - 1], paras[|paras| - 1];
      assert paras == front + [para];
      LateLongMore(count, maxTokens, front, para);
      var parts0: seq<string>, buf0: seq<string>, size0: nat :|
        && Ran(count, maxTokens, front, parts0, buf0, size0)
        && Steps(count, maxTokens, para, parts0, buf0, size0, parts, buf, size);
      m, heads, groups := RunIsPacked(count, maxTokens, front, parts0, buf0, size0);
      m, heads, groups :=
        PackedStep(count, maxTokens, front, m, heads, groups, parts0, buf0, size0, para, parts, buf, size);
    }
  }

  lemma NothingPacked(count: Tokenizer, maxTokens: int)
    ensures PackedSoFar(count, maxTokens, [], 0, [], [], [], [], 0)
  {
    PackingStarts(count, maxTokens);
  }

  lemma PackedCloses(count: Tokenizer, maxTokens: int, paras: seq<string>, m: nat, heads: seq<seq<string>>,
          groups: seq<seq<string>>, parts: seq<string>, buf: seq<string>, size: nat)
    requires PackedSoFar(count, maxTokens, paras, m, heads, groups, parts, buf, size)
    ensures PackedFrom(count, maxTokens, paras, m, heads, if buf == [] then groups else groups + [buf],
            Closed(parts, buf))
  {
    hide Fits, AreHeads, Join, Joined, Flatten, Greedy;
    if buf != [] {
      PackingCloses(count, maxTokens, groups, buf, size);
      FlattenSnoc(groups, buf);
      JoinedSnoc(PARAGRAPH, groups, buf);
    }
  }

  /**
    No text is split more than it must be: as long as no long paragraph comes too late, the
    chunks are the paragraphs packed greedily, after the leading ones that are split into
    lines packed greedily.
   */
  lemma SplitIsGreedy(count: Tokenizer, maxTokens: int, text: string, pieces: seq<string>)
    returns (m: nat, heads: seq<seq<string>>, groups: seq<seq<string>>, parts: seq<string>)
    requires IsSplitOf(count, maxTokens, text, pieces) && count(text) > maxTokens
    requires !LateLong(count, maxTokens, Split(PARAGRAPH, text))
    ensures PackedFrom(count, maxTokens, Split(PARAGRAPH, text), m, heads, groups, parts) && pieces == NonBlank(parts)
  {
    hide Ran, PackedSoFar, PackedFrom, LateLong, Split, NonBlank, Closed;
    var paras := Split(PARAGRAPH, text);
    var parts0: seq<string>, buf: seq<string>, size: nat :|
      Ran(count, maxTokens, paras, parts0, buf, size) && pieces == NonBlank(Closed(parts0, buf));
    m, heads, groups := RunIsPacked(count, maxTokens, paras, parts0, buf, size);
    PackedCloses(count, maxTokens, paras, m, heads, groups, parts0, buf, size);
    groups, parts := if buf == [] then groups else groups + [buf], Closed(parts0, buf);
  }

  // Greedy packing is unique

  lemma {:induction false} SumPrefix(count: Tokenizer, parts: seq<string>, n: nat)
    requires n <= |parts|
    ensures Sum(count, parts[..n]) <= Sum(count, parts)
    decreases |parts|
  {
    if n < |parts| {
      SumPrefix(count, parts[..|parts| - 1], n);
      assert parts[..|parts| - 1][..n] == parts[..n];
    } else {
      assert parts[..n] == parts;
    }
  }

  lemma {:induction false} FlattenCons<T>(g: seq<T>, groups: seq<seq<T>>)
    ensures Flatten([g] + groups) == g + Flatten(groups)
  {
    if groups == [] {
      assert [g] + groups == [g] && [g][..0] == [];
    } else {
      var front, last := groups[..|groups| - 1], groups[|groups| - 1];
      FlattenCons(g, front);
      assert ([g] + groups)[..|groups|] == [g] + front;
    }
  }

  /** The first group of one packing is not shorter than that of another of the same items. */
  lemma FirstNotShorter(count: Tokenizer, maxTokens: int, a: seq<seq<string>>, b: seq<seq<string>>)
    requires Greedy(count, maxTokens, a) && Greedy(count, maxTokens, b) && Flatten(a) == Flatten(b)
    requires a != [] && b != []
    ensures |a[0]| >= |b[0]|
  {
    hide Flatten, Sum, Greedy;
    Uncons(a);
    Uncons(b);
    NothingJoined(LINE);
    if |a| == 1 {
      assert a[1..] == [];
    } else if |a[0]| < |b[0]| {
      GreedyAt(count, maxTokens, a);
      GreedyAt(count, maxTokens, b);
      Uncons(a[1..]);
      assert a[1..][1..] == a[2..];
      TooLong(count, maxTokens, a[0], a[1], Flatten(a[2..]), b[0], Flatten(b[1..]));
    }
  }

  lemma GreedyAt(count: Tokenizer, maxTokens: int, groups: seq<seq<string>>)
    requires Greedy(count, maxTokens, groups) && groups != []
    ensures groups[0] != [] && (|groups[0]| == 1 || Sum(count, groups[0]) <= maxTokens)
    ensures |groups| > 1 ==> groups[1] != [] && Sum(count, groups[0]) + count(groups[1][0]) > maxTokens
  {
    hide Sum;
  }

  /** A group that takes in the first item of the next one is beyond the limit. */
  lemma TooLong(count: Tokenizer, maxTokens: int, a: seq<string>, next: seq<string>, rest: seq<string>,
          b: seq<string>, others: seq<string>)
    requires a + (next + rest) == b + others && |a| < |b| && next != []
    requires a != [] && Sum(count, a) + count(next[0]) > maxTokens
    ensures Sum(count, b) > maxTokens
  {
    hide Sum;
    var all := b + others;
    assert all[|a|] == next[0] && all[..|a|] == a;
    assert b[..|a| + 1] == a + [next[0]];
    SumSnoc(count, a, next[0]);
    SumPrefix(count, b, |a| + 1);
  }

  lemma Uncons(groups: seq<seq<string>>)
    requires groups != []
    ensures Flatten(groups) == groups[0] + Flatten(groups[1..])
  {
    assert groups == [groups[0]] + groups[1..];
    FlattenCons(groups[0], groups[1..]);
  }

  lemma GreedyTail(count: Tokenizer, maxTokens: int, groups: seq<seq<string>>)
    requires Greedy(count, maxTokens, groups) && groups != []
    ensures Greedy(count, maxTokens, groups[1..])
  {
    hide Sum;
    var tail := groups[1..];
    forall i, j | 0 <= i && j == i + 1 && j < |tail|
      ensures Sum(count, tail[i]) + count(tail[j][0]) > maxTokens
    {
      assert tail[i] == groups[i + 1] && tail[j] == groups[j + 1];
    }
  }

  /** There is one way to pack items greedily. */
  lemma {:induction false} GreedyIsUnique(count: Tokenizer, maxTokens: int, a: seq<seq<string>>, b: seq<seq<string>>)
    requires Greedy(count, maxTokens, a) && Greedy(count, maxTokens, b) && Flatten(a) == Flatten(b)
    ensures a == b
    decreases |a|
  {
    hide Flatten, Sum, Greedy;
    NothingJoined(LINE);
    GroupsNotEmpty(count, maxTokens, a);
    GroupsNotEmpty(count, maxTokens, b);
    if a != [] && b != [] {
      FirstNotShorter(count, maxTokens, a, b);
      FirstNotShorter(count, maxTokens, b, a);
      Uncons(a);
      Uncons(b);
      assert a[0] == Flatten(a)[..|a[0]|] == b[0];
      assert Flatten(a[1..]) == Flatten(a)[|a[0]|..] == Flatten(b[1..]);
      GreedyTail(count, maxTokens, a);
      GreedyTail(count, maxTokens, b);
      GreedyIsUnique(count, maxTokens, a[1..], b[1..]);
      assert a == [a[0]] + a[1..] && b == [b[0]] + b[1..];
    }
  }

  lemma GroupsNotEmpty(count: Tokenizer, maxTokens: int, groups: seq<seq<string>>)
    requires Greedy(count, maxTokens, groups)
    ensures groups != [] ==> Flatten(groups) != []
  {
    LengthsAdd(groups);
  }

  lemma WholeHoldsLimit(count: Tokenizer, maxTokens: int, text: string)
    requires count(text) <= maxTokens
    ensures HoldsLimit(count, maxTokens, text, [text])
  {
    hide CountsSubadditively, CountsWords, LateLong, Split, IsExcused;
  }

  lemma NothingHoldsLimit(count: Tokenizer, maxTokens: int, text: string)
    requires IsBlank(text)
    ensures HoldsLimit(count, maxTokens, text, [])
  {
    hide CountsSubadditively, LateLong, Split, Subadditive, Monotone, WideGap;
  }

  /** What the limit is worth: kept if no long paragraph comes too late, and for words only then. */
  ghost predicate HoldsLimit(count: Tokenizer, maxTokens: int, text: string, pieces: seq<string>)
  {
    var paras := Split(PARAGRAPH, text);
    && (CountsSubadditively(count) && (count(text) <= maxTokens || !LateLong(count, maxTokens, paras)) ==>
          AllWithin(count, maxTokens, paras, pieces))
    && (CountsWords(count, maxTokens) ==>
          (AllWithin(count, maxTokens, paras, pieces) <==>
            count(text) <= maxTokens || !LateLong(count, maxTokens, paras)))
  }

  /**
    The chunks of a text hold every character that is not white space, in order. If the
    tokenizer is subadditive and no long paragraph comes after one that fits, each chunk is
    within the limit or a whole line of a paragraph beyond it; for tokenizers that count words,
    that condition (or a text within the limit) is also necessary.
   */
  method OverflowSplit(count: Tokenizer, maxTokens: int, text: string) returns (r: Overflow)
    ensures r.BadLimit? <==> maxTokens <= 0
    ensures r.Pieces? ==> Ink(Concat(r.pieces)) == Ink(text) && NoneBlank(r.pieces)
    ensures r.Pieces? ==> HoldsLimit(count, maxTokens, text, r.pieces)
    ensures r.Pieces? ==> if IsBlank(text) then r.pieces == [] else IsSplitOf(count, maxTokens, text, r.pieces)
  {
    hide Ink, Concat, IsBlank, Split, LateLong, Progress, Steps, Join, Subadditive, Monotone, WideGap, IsExcused, Ran,
      NonBlank;
    if maxTokens <= 0 {
      return BadLimit;
    }
    if IsBlank(text) {
      InkNone();
      NothingHoldsLimit(count, maxTokens, text);
      return Pieces([]);
    }
    if count(text) <= maxTokens {
      ConcatOne(text);
      WholeHoldsLimit(count, maxTokens, text);
      return Pieces([text]);
    }
    var paras := Split(PARAGRAPH, text);
    var parts: seq<string>, buf: seq<string>, size: nat := [], [], 0;
    ProgressStarts(count, maxTokens);
    RanNone(count, maxTokens);
    InkNone();
    for i := 0 to |paras|
      invariant Progress(count, maxTokens, paras[..i], parts, buf, size)
      invariant Ran(count, maxTokens, paras[..i], parts, buf, size)
      invariant Ink(Concat(parts)) + Ink(Concat(buf)) == Ink(Concat(paras[..i]))
    {
      var para := paras[i];
      assert paras[..i + 1] == paras[..i] + [para];
      var parts', buf', size' := AppendParagraph(count, maxTokens, para, parts, buf, size);
      StepKeepsInk(count, maxTokens, para, parts, buf, size, parts', buf', size');
      InkParts(paras[..i], para);
      ProgressStep(count, maxTokens, paras[..i], para, parts, buf, size, parts', buf', size');
      RanOn(count, maxTokens, paras[..i], para, parts, buf, size, parts', buf', size');
      parts, buf, size := parts', buf', size';
    }
    assert paras[..|paras|] == paras;
    ClosedWithin(count, maxTokens, paras, parts, buf, size);
    ClosedKeepsInk(parts, buf);
    InkParagraphs(text);
    if buf != [] {
      parts := parts + [Join(PARAGRAPH, buf)];
    }
    NonBlankKeepsInk(parts);
    r := Pieces(NonBlank(parts));
  }

  /** If every paragraph fits, none comes too late and no line is excused: the limit holds outright. */
  lemma FittingParagraphs(count: Tokenizer, maxTokens: int, paras: seq<string>, chunks: seq<string>)
    requires forall p :: p in paras ==> Fits(count, maxTokens, p)
    ensures !LateLong(count, maxTokens, paras)
    ensures AllWithin(count, maxTokens, paras, chunks) <==> forall c :: c in chunks ==> count(c) <= maxTokens
  {
    hide Split;
    assert forall j :: 0 <= j < |paras| ==> paras[j] in paras;
  }

  // ---------------------------------------------------------------------------
  // The limit can fail
  // ---------------------------------------------------------------------------

  /** A tokenizer with one token for every character that is not white space. */
  function InkCount(s: string): nat
  {
    |Ink(s)|
  }

  lemma InkCountSubadditive(separator: string)
    requires IsBlank(separator)
    ensures Subadditive(InkCount, separator)
  {
    hide Ink;
    forall a: string, b: string
      ensures InkCount(a + separator + b) == InkCount(a) + InkCount(b)
    {
      InkAppend(a + separator, b);
      InkAppend(a, separator);
    }
  }

  /** It counts words in the sense above, so the conditions can be met. */
  lemma InkCountsWords(maxTokens: nat)
    ensures CountsWords(InkCount, maxTokens)
  {
    hide Ink, Join;
    InkCountSubadditive(LINE);
    InkCountSubadditive(PARAGRAPH);
    forall a: string, b: string
      ensures InkCount(a) <= InkCount(a + PARAGRAPH + b)
    {
      InkAppend(a + PARAGRAPH, b);
      InkAppend(a, PARAGRAPH);
    }
    forall parts: seq<string>
      ensures InkCount(Join(LINE, parts)) <= InkCount(Join(PARAGRAPH, parts))
    {
      InkJoin(LINE, parts);
      InkJoin(PARAGRAPH, parts);
    }
  }

  const PUT_BACK := "a\n\nb\nc"

  /**
    A fitting paragraph followed by two lines that only fit apart: the lines are split and put
    back into one buffer, and the chunk that comes out is beyond the limit though it has lines.
   */
  method PutBackTogether() returns (r: Overflow)
    ensures r.Pieces? && !AllWithin(InkCount, 1, Split(PARAGRAPH, PUT_BACK), r.pieces)
  {
    hide CountsWords, Split, LateLong, InkCount, AllWithin;
    InkCountsWords(1);
    PutBackCounts();
    PutBackIsLate();
    r := OverflowSplit(InkCount, 1, PUT_BACK);
  }

  /** Two visible characters with space between them count twice, and in any text that ends in them. */
  lemma TwoVisible(before: string, a: char, gap: string, b: char)
    requires !IsSpace(a) && !IsSpace(b)
    ensures InkCount(before + ([a] + gap + [b])) > 1
  {
    hide Ink, IsSpace;
    InkAppend(before, [a] + gap + [b]);
    InkAppend([a] + gap, [b]);
    InkAppend([a], gap);
    InkOne(a);
    InkOne(b);
  }

  lemma PutBackCounts()
    ensures InkCount(PUT_BACK) > 1 && InkCount("b\nc") > 1 && InkCount("a") <= 1
  {
    hide Ink, InkCount;
    assert ['b'] + "\n" + ['c'] == "b\nc" && "" + "b\nc" == "b\nc" && "a\n\n" + "b\nc" == PUT_BACK;
    TwoVisible("a\n\n", 'b', "\n", 'c');
    TwoVisible("", 'b', "\n", 'c');
    OneVisible();
  }

  lemma OneVisible()
    ensures InkCount("a") <= 1
  {
    InkOne('a');
  }

  lemma InkOne(c: char)
    requires !IsSpace(c)
    ensures Ink([c]) == [c]
  {
    assert [c][1..] == [];
  }

  lemma PutBackIsLate()
    ensures LateLong(InkCount, 1, Split(PARAGRAPH, PUT_BACK))
  {
    hide Split, InkCount, OccursAt;
    PutBackCounts();
    PutBackOccurrences();
    SplitAt(PARAGRAPH, PUT_BACK, 1);
    assert PUT_BACK[..1] == "a" && PUT_BACK[3..] == "b\nc";
    var paras := Split(PARAGRAPH, PUT_BACK);
    SplitFirst(PARAGRAPH, "b\nc");
    SplitAt(LINE, "b\nc", 1);
    assert paras == ["a", "b\nc"];
    assert Fits(InkCount, 1, paras[0]) && IsLong(InkCount, 1, paras[1]);
  }

  lemma PutBackOccurrences()
    ensures OccursAt(PARAGRAPH, PUT_BACK, 1) && !OccursAt(PARAGRAPH, PUT_BACK, 0)
    ensures OccursAt(LINE, "b\nc", 1) && !OccursAt(LINE, "b\nc", 0)
    ensures forall j: nat :: !OccursAt(PARAGRAPH, "b\nc", j)
  {
    var rest := "b\nc";
    assert PUT_BACK[0..2] != PARAGRAPH by {
      assert PUT_BACK[0..2][0] == 'a';
    }
    assert rest[0..1] != LINE by {
      assert rest[0..1][0] == 'b';
    }
    assert rest[0..2] != PARAGRAPH by {
      assert rest[0..2][0] == 'b';
    }
    assert rest[1..3] != PARAGRAPH by {
      assert rest[1..3][1] == 'c';
    }
  }

  lemma SplitAt(separator: string, s: string, at: nat)
    requires separator != "" && OccursAt(separator, s, at) && forall j: nat :: j < at ==> !OccursAt(separator, s, j)
    ensures at + |separator| <= |s| && Split(separator, s) == [s[..at]] + Split(separator, s[at + |separator|..])
  {
    hide FindFrom;
    FindsAt(separator, s, at);
  }

  lemma FindsAt(separator: string, s: string, at: nat)
    requires OccursAt(separator, s, at) && forall j: nat :: j < at ==> !OccursAt(separator, s, j)
    ensures FindFrom(separator, s, 0) == Some(at)
  {
    hide FindFrom, OccursAt;
    var found := FindFrom(separator, s, 0);
    assert found.Some? ==> OccursAt(separator, s, found.value);
  }

  lemma SplitFirst(separator: string, s: string)
    requires separator != "" && forall j: nat :: !OccursAt(separator, s, j)
    ensures Split(separator, s) == [s]
  {
  }

  // ---------------------------------------------------------------------------
  // Documents
  // ---------------------------------------------------------------------------

  ghost function Tag(section: Section, pieces: seq<string>): (r: seq<(Section, string)>)
    ensures |r| == |pieces|
  {
    seq(|pieces|, i requires 0 <= i < |pieces| => (section, pieces[i]))
  }

  ghost function Tagged(sections: seq<Section>, pieces: seq<seq<string>>): seq<(Section, string)>
    requires |sections| == |pieces|
  {
    if sections == [] then []
    else
      Tagged(sections[..|sections| - 1], pieces[..|pieces| - 1])
      + Tag(sections[|sections| - 1], pieces[|pieces| - 1])
  }

  lemma TaggedSnoc(sections: seq<Section>, pieces: seq<seq<string>>, section: Section, piece: seq<string>)
    requires |sections| == |pieces|
    ensures Tagged(sections + [section], pieces + [piece]) == Tagged(sections, pieces) + Tag(section, piece)
  {
    assert (sections + [section])[..|sections|] == sections && (pieces + [piece])[..|pieces|] == pieces;
  }

  lemma TagStarts(section: Section, pieces: seq<string>)
    ensures Tag(section, pieces[..0]) == [] && pieces[..|pieces|] == pieces
  {
  }

  lemma TagSnoc(section: Section, pieces: seq<string>, i: nat)
    requires i < |pieces|
    ensures Tag(section, pieces[..i + 1]) == Tag(section, pieces[..i]) + [(section, pieces[i])]
  {
  }

  datatype Document = InvalidLimit | Chunks(chunks: seq<(Section, string)>)

  /**
    The text is split as it must be: nothing but white space is lost, no piece is blank and
    there is at least one, the limit is held, and nothing is split more than needed.
   */
  ghost predicate IsChunking(count: Tokenizer, maxTokens: int, text: string, pieces: seq<string>)
  {
    && pieces != [] && NoneBlank(pieces) && Ink(Concat(pieces)) == Ink(text)
    && HoldsLimit(count, maxTokens, text, pieces) && IsSplitOf(count, maxTokens, text, pieces)
  }

  /** The pieces of each section. */
  ghost predicate PiecesOf(count: Tokenizer, maxTokens: int, sections: seq<Section>, pieces: seq<seq<string>>)
  {
    && |pieces| == |sections|
    && forall k :: 0 <= k < |sections| ==> IsChunking(count, maxTokens, sections[k].body, pieces[k])
  }

  lemma PiecesOfMore(count: Tokenizer, maxTokens: int, sections: seq<Section>, pieces: seq<seq<string>>,
          section: Section, piece: seq<string>)
    requires PiecesOf(count, maxTokens, sections, pieces) && IsChunking(count, maxTokens, section.body, piece)
    ensures PiecesOf(count, maxTokens, sections + [section], pieces + [piece])
  {
    hide IsChunking;
  }

  /** The first `k` sections are chunked. */
  ghost predicate ChunkedTo(count: Tokenizer, maxTokens: int, sections: seq<Section>, k: nat,
          pieces: seq<seq<string>>, out: seq<(Section, string)>)
  {
    && k <= |sections| && PiecesOf(count, maxTokens, sections[..k], pieces) && out == Tagged(sections[..k], pieces)
  }

  lemma ChunkedNone(count: Tokenizer, maxTokens: int, sections: seq<Section>)
    ensures ChunkedTo(count, maxTokens, sections, 0, [], [])
  {
    assert sections[..0] == [];
  }

  lemma ChunkedMore(count: Tokenizer, maxTokens: int, sections: seq<Section>, k: nat, pieces: seq<seq<string>>,
          out: seq<(Section, string)>, texts: seq<string>)
    requires ChunkedTo(count, maxTokens, sections, k, pieces, out) && k < |sections|
    requires IsChunking(count, maxTokens, sections[k].body, texts)
    ensures ChunkedTo(count, maxTokens, sections, k + 1, pieces + [texts], out + Tag(sections[k], texts))
  {
    hide IsChunking, Tagged, Tag;
    assert sections[..k + 1] == sections[..k] + [sections[k]];
    PiecesOfMore(count, maxTokens, sections[..k], pieces, sections[k], texts);
    TaggedSnoc(sections[..k], pieces, sections[k], texts);
  }

  lemma ChunkedAll(count: Tokenizer, maxTokens: int, sections: seq<Section>, pieces: seq<seq<string>>,
          out: seq<(Section, string)>)
    requires ChunkedTo(count, maxTokens, sections, |sections|, pieces, out)
    ensures PiecesOf(count, maxTokens, sections, pieces) && out == Tagged(sections, pieces)
    ensures Ink(Concat(Flatten(pieces))) == Ink(Concat(Bodies(sections)))
  {
    hide Ink, Concat, PiecesOf, Tagged;
    assert sections[..|sections|] == sections;
    PiecesKeepInk(count, maxTokens, sections, pieces);
  }

  lemma {:induction false} PiecesKeepInk(count: Tokenizer, maxTokens: int, sections: seq<Section>,
          pieces: seq<seq<string>>)
    requires PiecesOf(count, maxTokens, sections, pieces)
    ensures Ink(Concat(Flatten(pieces))) == Ink(Concat(Bodies(sections)))
  {
    hide Ink, Concat, NoneBlank, HoldsLimit, IsSplitOf;
    if sections == [] {
      assert Bodies(sections) == Flatten(pieces);
    } else {
      var n := |sections| - 1;
      assert PiecesOf(count, maxTokens, sections[..n], pieces[..n]);
      PiecesKeepInk(count, maxTokens, sections[..n], pieces[..n]);
      assert sections == sections[..n] + [sections[n]];
      BodiesSnoc(sections[..n], sections[n]);
      InkAppend(Concat(Bodies(sections[..n])), sections[n].body);
      ConcatAppend(Flatten(pieces[..n]), pieces[n]);
      InkAppend(Concat(Flatten(pieces[..n])), Concat(pieces[n]));
    }
  }

  /** The pieces of one section; the section itself stands in for none, which never happens. */
  method SectionPieces(count: Tokenizer, maxTokens: int, body: string) returns (texts: seq<string>)
    requires !IsBlank(body)
    ensures maxTokens > 0 ==> IsChunking(count, maxTokens, body, texts)
    ensures maxTokens <= 0 ==> texts == []
  {
    hide Ink, Concat, IsBlank, NoneBlank, HoldsLimit, IsSplitOf;
    var split := OverflowSplit(count, maxTokens, body);
    if split.BadLimit? {
      return [];
    }
    SomePiece(split.pieces, body);
    return if split.pieces == [] then [body] else split.pieces;
  }

  /** Appends every piece under its section. */
  method TagPieces(out: seq<(Section, string)>, section: Section, texts: seq<string>)
    returns (longer: seq<(Section, string)>)
    ensures longer == out + Tag(section, texts)
  {
    hide Tag;
    TagStarts(section, texts);
    longer := out;
    for i := 0 to |texts|
      invariant longer == out + Tag(section, texts[..i])
    {
      TagSnoc(section, texts, i);
      longer := longer + [(section, texts[i])];
    }
  }

  /**
    The chunks of a document, section by section, hold every character of the body that is
    not white space, in order. The sections are those of the heading lines of the body; the
    pieces of each are its text if that is within the limit, and otherwise what the run over
    its paragraphs leaves, so that the limit holds as stated there and nothing is split more
    than needed. The limit is refused only if there is something to chunk.
   */
  method ChunkDocument(count: Tokenizer, body: string, maxTokens: int)
    returns (r: Document, ghost headings: seq<Boundary>, ghost sections: seq<Section>, ghost pieces: seq<seq<string>>)
    ensures r.InvalidLimit? <==> maxTokens <= 0 && !IsBlank(body)
    ensures WellPlaced(Body(body), headings) && forall b :: b in headings <==> IsHeading(Body(body), b)
    ensures sections == if headings == [] then Whole(Body(body)) else SectionsTo(Body(body), headings, |headings|)
    ensures r.Chunks? ==> |pieces| == |sections| && r.chunks == Tagged(sections, pieces)
    ensures r.Chunks? ==>
              forall k :: 0 <= k < |sections| ==> IsChunking(count, maxTokens, sections[k].body, pieces[k])
    ensures r.Chunks? ==> Ink(Concat(Flatten(pieces))) == Ink(body) && Numbered(sections)
  {
    hide Ink, Concat, IsChunking, Tagged, NoneBlank, Flatten, SectionsTo;
    hide WellPlaced, Numbered, IsHeading, Bodies, IsBlank, Whole, Body, ChunkedTo, Tag;
    var all;
    all, headings := SplitIntoSections(body);
    sections, pieces := all, [];
    ChunkedNone(count, maxTokens, all);
    var out := [];
    for k := 0 to |all|
      invariant ChunkedTo(count, maxTokens, all, k, pieces, out)
      invariant k > 0 ==> maxTokens > 0
    {
      var section := all[k];
      SectionHasInk(all, k);
      var texts := SectionPieces(count, maxTokens, section.body);
      if maxTokens <= 0 {
        InkOfAll(all, k);
        return InvalidLimit, headings, sections, pieces;
      }
      ChunkedMore(count, maxTokens, all, k, pieces, out, texts);
      out := TagPieces(out, section, texts);
      pieces := pieces + [texts];
    }
    ChunkedAll(count, maxTokens, all, pieces, out);
    NoInk(all, body);
    r := Chunks(out);
  }

  lemma SectionHasInk(sections: seq<Section>, k: nat)
    requires NoneBlank(Bodies(sections)) && k < |sections|
    ensures !IsBlank(sections[k].body)
  {
    assert Bodies(sections)[k] in Bodies(sections);
  }

  lemma SomePiece(pieces: seq<string>, body: string)
    requires Ink(Concat(pieces)) == Ink(body) && !IsBlank(body)
    ensures pieces != []
  {
    InkNone();
  }

  lemma InkOfAll(sections: seq<Section>, k: nat)
    requires k < |sections| && !IsBlank(sections[k].body)
    ensures Ink(Concat(Bodies(sections))) != ""
  {
    hide Ink, Concat;
    var bodies := Bodies(sections);
    assert bodies == bodies[..k] + [bodies[k]] + bodies[k + 1..];
    ConcatAppend(bodies[..k] + [bodies[k]], bodies[k + 1..]);
    ConcatSnoc(bodies[..k], bodies[k]);
    InkAppend(Concat(bodies[..k]) + bodies[k], Concat(bodies[k + 1..]));
    InkAppend(Concat(bodies[..k]), bodies[k]);
  }

  lemma NoInk(sections: seq<Section>, body: string)
    requires Ink(Concat(Bodies(sections))) == Ink(body)
    ensures sections == [] ==> IsBlank(body)
  {
    hide Ink, Concat;
    InkNone();
    assert sections == [] ==> Bodies(sections) == [];
  }
}
