/** The word wrap of option descriptions, `format_description` of `Include/cxxopts.hpp`. */
module WordWrap {

  predicate Blank(c: char) {
    c == ' ' || c == '\t'
  }

  /** The text the loop runs over: it ends in an added blank. */
  predicate Text(desc: string) {
    desc != "" && desc[|desc| - 1] == ' '
  }

  // ----- where lines are cut, without a cursor

  /** The first line feed at or after `i`, or the end. */
  function FirstNewline(desc: string, i: nat): (n: nat)
    requires i <= |desc|
    ensures i <= n <= |desc| && (n < |desc| ==> desc[n] == '\n')
    ensures forall k :: i <= k < n ==> desc[k] != '\n'
    decreases |desc| - i
  {
    if i < |desc| && desc[i] != '\n' then FirstNewline(desc, i + 1) else i
  }

  /** The end of the run of line feeds that begins at `i`. */
  function RunEnd(desc: string, i: nat): (n: nat)
    requires i <= |desc|
    ensures i <= n <= |desc| && (n < |desc| ==> desc[n] != '\n')
    ensures forall k :: i <= k < n ==> desc[k] == '\n'
    decreases |desc| - i
  {
    if i < |desc| && desc[i] == '\n' then RunEnd(desc, i + 1) else i
  }

  /** The end of the last blank between `a` and `b`, or `a` when there is none. */
  function LastBlankEnd(desc: string, a: nat, b: nat): (p: nat)
    requires a <= b <= |desc|
    ensures a <= p <= b && (p > a ==> Blank(desc[p - 1]))
    ensures forall k :: p <= k < b ==> !Blank(desc[k])
    decreases b
  {
    if b == a || Blank(desc[b - 1]) then b else LastBlankEnd(desc, a, b - 1)
  }

  /** The end of the line that begins at `a`, `|desc|` when nothing is left to cut: after the next
      line feeds if the line fits until there, else after the last blank that fits, else after
      `allowed` characters. */
  function NextCut(desc: string, a: nat, allowed: nat): (c: nat)
    requires Text(desc) && a < |desc| && allowed > 0
    ensures a < c <= |desc|
  {
    var n := FirstNewline(desc, a);
    if n < |desc| && n - a <= allowed then RunEnd(desc, n)
    else if a + allowed >= |desc| then |desc|
    else
      var p := LastBlankEnd(desc, a, a + allowed);
      if p > a then p else a + allowed
  }

  function Spaces(n: nat): string {
    if n == 0 then "" else Spaces(n - 1) + " "
  }

  /** A line that does not end in a line feed gets one; then the indentation follows. */
  function Separator(line: string, indent: nat): string {
    (if line != "" && line[|line| - 1] == '\n' then "" else "\n") + Spaces(indent)
  }

  predicate AllBlank(desc: string, a: nat, b: nat)
    requires a <= b <= |desc|
  {
    forall k :: a <= k < b ==> Blank(desc[k])
  }

  /** What is left when nothing is cut any more: dropped if blank, where after a cut the first
      character of the line does not count. */
  function LastLine(desc: string, a: nat, cut: bool): string
    requires Text(desc) && a < |desc|
  {
    if AllBlank(desc, if cut then a + 1 else a, |desc|) then "" else desc[a..|desc| - 1]
  }

  function Render(desc: string, a: nat, cut: bool, indent: nat, allowed: nat): string
    requires Text(desc) && a < |desc| && allowed > 0
    decreases |desc| - a
  {
    var c := NextCut(desc, a, allowed);
    if c == |desc| then LastLine(desc, a, cut)
    else desc[a..c] + Separator(desc[a..c], indent) + Render(desc, c, true, indent, allowed)
  }

  lemma RunCut(desc: string, a: nat, run: nat, allowed: nat)
    requires Text(desc) && a <= run < |desc| && run - a <= allowed && allowed > 0
    requires FirstNewline(desc, a) >= run && desc[run] == '\n'
    ensures NextCut(desc, a, allowed) == RunEnd(desc, run) < |desc|
  {}

  lemma FullCut(desc: string, a: nat, current: nat, allowed: nat)
    requires Text(desc) && allowed > 0 && current == a + allowed < |desc|
    requires FirstNewline(desc, a) >= current && desc[current] != '\n'
    ensures var p := LastBlankEnd(desc, a, current);
            NextCut(desc, a, allowed) == (if p != a then p else current)
    ensures desc[NextCut(desc, a, allowed)] != '\n'
  {}

  lemma LastBlankStep(desc: string, a: nat, current: nat)
    requires a < current <= |desc|
    ensures LastBlankEnd(desc, a, current)
            == (if Blank(desc[current - 1]) then current else LastBlankEnd(desc, a, current - 1))
  {}

  lemma NothingToCut(desc: string, a: nat, cut: bool, indent: nat, allowed: nat)
    requires Text(desc) && allowed > 0 && a < |desc| <= a + allowed && FirstNewline(desc, a) == |desc|
    ensures Render(desc, a, cut, indent, allowed) == LastLine(desc, a, cut)
  {}

  lemma RenderCut(result: string, desc: string, a: nat, c: nat, cut: bool, indent: nat, allowed: nat)
    requires Text(desc) && allowed > 0 && a < c < |desc| && c == NextCut(desc, a, allowed)
    ensures result + Render(desc, a, cut, indent, allowed)
            == result + (desc[a..c] + Separator(desc[a..c], indent)) + Render(desc, c, true, indent, allowed)
  {
    hide NextCut, Separator;
    var line, rest := desc[a..c] + Separator(desc[a..c], indent), Render(desc, c, true, indent, allowed);
    assert Render(desc, a, cut, indent, allowed) == line + rest;
    assert result + (line + rest) == result + line + rest;
  }

  /** The pieces the loop appends at a cut are the line and its separator. */
  lemma Flushed(result: string, desc: string, a: nat, c: nat, previous: nat, indent: nat)
    requires a < c <= |desc| && previous < |desc| && (desc[previous] == '\n' <==> desc[c - 1] == '\n')
    ensures var r := result + desc[a..c] + (if desc[previous] != '\n' then "\n" else "") + Spaces(indent);
            && r == result + (desc[a..c] + Separator(desc[a..c], indent))
            && r + desc[c..c] == r && result + desc[a..c] + "" == result + desc[a..c]
  {
    hide Spaces;
    var line := desc[a..c];
    assert line[|line| - 1] == desc[c - 1];
  }

  lemma LastLineIs(desc: string, a: nat, cut: bool)
    requires Text(desc) && a < |desc|
    ensures LastLine(desc, a, cut)
            == (if AllBlank(desc, if cut then a + 1 else a, |desc|) then "" else desc[a..|desc| - 1])
  {}

  lemma AllBlankStep(desc: string, a: nat, b: nat)
    requires a <= b <= |desc|
    ensures AllBlank(desc, a, a)
    ensures b < |desc| ==> (AllBlank(desc, a, b + 1) <==> AllBlank(desc, a, b) && Blank(desc[b]))
  {}

  lemma LastBlankStart(desc: string, a: nat)
    requires a <= |desc|
    ensures LastBlankEnd(desc, a, a) == a
  {}

  lemma NewlineStep(desc: string, c: nat)
    requires c < |desc| && desc[c] != '\n'
    ensures FirstNewline(desc, c) >= c + 1
  {}

  // ----- the loop

  method SkipNewlines(desc: string, previous0: nat, current0: nat) returns (previous: nat, current: nat, skipped: bool)
    requires Text(desc) && current0 < |desc|
    ensures current == RunEnd(desc, current0) < |desc| && desc[current] != '\n'
    ensures skipped <==> desc[current0] == '\n'
    ensures if skipped then current > current0 && previous == current - 1 && desc[previous] == '\n'
            else current == current0 && previous == previous0
  {
    previous, current, skipped := previous0, current0, false;
    while desc[current] == '\n'
      invariant current0 <= current < |desc| && RunEnd(desc, current0) == RunEnd(desc, current)
      invariant if skipped then current > current0 && previous == current - 1 && desc[previous] == '\n' && desc[current0] == '\n'
                else current == current0 && previous == previous0
      decreases |desc| - current
    {
      previous := current;
      current := current + 1;
      skipped := true;
    }
  }

  method AppendLine(result0: string, desc: string, startLine: nat, current: nat, previous: nat, indent: nat)
    returns (result: string)
    requires startLine < current <= |desc| && previous < |desc|
    requires desc[previous] == '\n' <==> desc[current - 1] == '\n'
    ensures result == result0 + (desc[startLine..current] + Separator(desc[startLine..current], indent))
  {
    Flushed(result0, desc, startLine, current, previous, indent);
    result := result0 + desc[startLine..current];
    var lastSpace := current;
    if desc[previous] != '\n' {
      result := result + "\n";
    }
    result := result + Spaces(indent);
    if desc[previous] != '\n' {
      result := result + desc[lastSpace..current];
    }
  }

  /** What the cursor variables say at the head of the loop. */
  ghost predicate Loop(desc: string, allowed: nat, current: nat, previous: nat, startLine: nat, lastSpace: nat,
                       size: nat, onlyWhiteSpace: bool, cut: bool) {
    && Text(desc) && startLine <= previous <= current <= |desc| && startLine < |desc|
    && previous == (if current == 0 then 0 else current - 1)
    && size == current - startLine <= allowed
    && (if cut then startLine < current else startLine == 0)
    && FirstNewline(desc, startLine) >= current
    && lastSpace == LastBlankEnd(desc, startLine, previous)
    && onlyWhiteSpace == AllBlank(desc, if cut then startLine + 1 else startLine, current)
  }

  /** The updates of `lastSpace` at the head of the body. */
  lemma LastSpaceUpdated(desc: string, allowed: nat, current: nat, previous: nat, startLine: nat, lastSpace: nat,
                         size: nat, onlyWhiteSpace: bool, cut: bool)
    requires Loop(desc, allowed, current, previous, startLine, lastSpace, size, onlyWhiteSpace, cut) && current < |desc|
    ensures (if Blank(desc[previous]) then current else lastSpace) == LastBlankEnd(desc, startLine, current)
  {
    hide LastBlankEnd;
    if startLine < current {
      LastBlankStep(desc, startLine, current);
    } else {
      LastBlankStart(desc, startLine);
    }
  }

  lemma Advanced(desc: string, allowed: nat, current: nat, previous: nat, startLine: nat, lastSpace: nat,
                 size: nat, onlyWhiteSpace: bool, cut: bool)
    requires Loop(desc, allowed, current, previous, startLine, lastSpace, size, onlyWhiteSpace, cut)
    requires current < |desc| && desc[current] != '\n' && size < allowed
    ensures Loop(desc, allowed, current + 1, current, startLine, if Blank(desc[previous]) then current else lastSpace,
                 size + 1, onlyWhiteSpace && Blank(desc[current]), cut)
  {
    hide LastBlankEnd, FirstNewline, AllBlank;
    LastSpaceUpdated(desc, allowed, current, previous, startLine, lastSpace, size, onlyWhiteSpace, cut);
    AllBlankStep(desc, if cut then startLine + 1 else startLine, current);
    FirstNewlineFrom(desc, startLine, current);
  }

  lemma FirstNewlineFrom(desc: string, a: nat, current: nat)
    requires a <= current < |desc| && FirstNewline(desc, a) >= current && desc[current] != '\n'
    ensures FirstNewline(desc, a) >= current + 1
  {}

  lemma StartedLine(desc: string, allowed: nat, c: nat)
    requires Text(desc) && allowed > 0 && 0 < c < |desc| && desc[c] != '\n'
    ensures Loop(desc, allowed, c + 1, c, c, c, 1, true, true)
  {
    hide LastBlankEnd, FirstNewline, AllBlank;
    LastBlankStart(desc, c);
    AllBlankStep(desc, c + 1, c + 1);
    NewlineStep(desc, c);
  }

  lemma LoopBounds(desc: string, allowed: nat, current: nat, previous: nat, startLine: nat, lastSpace: nat,
                   size: nat, onlyWhiteSpace: bool, cut: bool)
    requires Loop(desc, allowed, current, previous, startLine, lastSpace, size, onlyWhiteSpace, cut)
    ensures Text(desc) && startLine <= previous <= current <= |desc| && startLine < |desc| && size == current - startLine
    ensures current > 0 ==> previous == current - 1
    ensures current < |desc| ==> previous < |desc|
    ensures current == |desc| ==> FirstNewline(desc, startLine) == |desc| <= startLine + allowed
    ensures current == |desc| ==> onlyWhiteSpace == AllBlank(desc, if cut then startLine + 1 else startLine, |desc|)
  {}

  /** Where the body cuts, when it cuts, is where the line ends. */
  lemma CutFound(desc: string, allowed: nat, current: nat, previous: nat, startLine: nat, lastSpace: nat,
                 size: nat, onlyWhiteSpace: bool, cut: bool)
    requires allowed > 0 && Loop(desc, allowed, current, previous, startLine, lastSpace, size, onlyWhiteSpace, cut)
    requires current < |desc| && (desc[current] == '\n' || size >= allowed)
    ensures var p := if Blank(desc[previous]) then current else lastSpace;
            var c := if desc[current] == '\n' then RunEnd(desc, current) else if p != startLine then p else current;
            && c == NextCut(desc, startLine, allowed) && startLine < c < |desc| && desc[c] != '\n'
            && (desc[current] == '\n' <==> desc[c - 1] == '\n')
            && (desc[current] != '\n' && p == startLine ==> desc[previous] != '\n')
  {
    hide LastBlankEnd, AllBlank;
    LastSpaceUpdated(desc, allowed, current, previous, startLine, lastSpace, size, onlyWhiteSpace, cut);
    if desc[current] == '\n' {
      RunCut(desc, startLine, current, allowed);
    } else {
      FullCut(desc, startLine, current, allowed);
    }
  }

  /** `current` jumps back to the last blank when a line is full. The caller allows at least ten
      characters to a line. */
  method Format(desc: string, indent: nat, allowed: nat) returns (result: string)
    requires Text(desc) && allowed > 0
    ensures result == Render(desc, 0, false, indent, allowed) == Printed(Lines(desc, 0, allowed), false, indent)
  {
    hide Loop, Lines, Printed, Render, NextCut, LastLine, Spaces, Separator, Blank, FirstNewline, LastBlankEnd, RunEnd, AllBlank;
    result := "";
    var current: nat, previous: nat, startLine: nat, lastSpace: nat, size: nat := 0, 0, 0, 0, 0;
    var onlyWhiteSpace := true;
    ghost var cut := false;
    LoopStarts(desc, allowed);
    while current != |desc|
      invariant startLine < |desc|
      invariant Loop(desc, allowed, current, previous, startLine, lastSpace, size, onlyWhiteSpace, cut)
      invariant result + Render(desc, startLine, cut, indent, allowed) == Render(desc, 0, false, indent, allowed)
      decreases |desc| - startLine, |desc| - current
    {
      LoopBounds(desc, allowed, current, previous, startLine, lastSpace, size, onlyWhiteSpace, cut);
      if desc[current] == '\n' || size >= allowed {
        CutFound(desc, allowed, current, previous, startLine, lastSpace, size, onlyWhiteSpace, cut);
      } else {
        Advanced(desc, allowed, current, previous, startLine, lastSpace, size, onlyWhiteSpace, cut);
      }
      var appendNewLine;
      if Blank(desc[previous]) {
        lastSpace := current;
      }
      if !Blank(desc[current]) {
        onlyWhiteSpace := false;
      }
      previous, current, appendNewLine := SkipNewlines(desc, previous, current);
      if !appendNewLine && size >= allowed {
        if lastSpace != startLine {
          current := lastSpace;
          previous := current;
        }
        appendNewLine := true;
      }
      if appendNewLine {
        RenderCut(result, desc, startLine, current, cut, indent, allowed);
        StartedLine(desc, allowed, current);
        result := AppendLine(result, desc, startLine, current, previous, indent);
        startLine := current;
        lastSpace := current;
        onlyWhiteSpace := true;
        size := 0;
        cut := true;
      }
      previous := current;
      current := current + 1;
      size := size + 1;
    }
    LoopBounds(desc, allowed, current, previous, startLine, lastSpace, size, onlyWhiteSpace, cut);
    NothingToCut(desc, startLine, cut, indent, allowed);
    LastLineIs(desc, startLine, cut);
    if !onlyWhiteSpace {
      result := result + desc[startLine..previous];
    }
    PrintsLines(desc, 0, false, indent, allowed);
  }

  lemma LoopStarts(desc: string, allowed: nat)
    requires Text(desc)
    ensures Loop(desc, allowed, 0, 0, 0, 0, 0, true, false)
  {
    AllBlankStep(desc, 0, 0);
    LastBlankStart(desc, 0);
  }

  // ----- what the lines are

  /** The lines, line feeds and the final blank included. */
  function Lines(desc: string, a: nat, allowed: nat): (lines: seq<string>)
    requires Text(desc) && a < |desc| && allowed > 0
    ensures lines != [] && forall i :: 0 <= i < |lines| ==> lines[i] != ""
    decreases |desc| - a
  {
    var c := NextCut(desc, a, allowed);
    [desc[a..c]] + (if c == |desc| then [] else Lines(desc, c, allowed))
  }

  /** How lines are printed: each but the last with its separator, the last one without its final
      blank, or not at all if it is blank; after a cut its first character does not count for that. */
  function Printed(lines: seq<string>, cut: bool, indent: nat): string
    requires lines != [] && forall i :: 0 <= i < |lines| ==> lines[i] != ""
  {
    var line := lines[0];
    if |lines| > 1 then line + Separator(line, indent) + Printed(lines[1..], true, indent)
    else if AllBlank(line, if cut then 1 else 0, |line|) then ""
    else line[..|line| - 1]
  }

  function Flatten(lines: seq<string>): string {
    if lines == [] then "" else lines[0] + Flatten(lines[1..])
  }

  lemma SplitAt(desc: string, a: nat, c: nat)
    requires a <= c <= |desc|
    ensures desc[a..] == desc[a..c] + desc[c..]
  {}

  lemma LastPrinted(desc: string, a: nat, cut: bool, indent: nat)
    requires Text(desc) && a < |desc|
    ensures LastLine(desc, a, cut) == Printed([desc[a..]], cut, indent)
  {
    var line := desc[a..];
    var k := if cut then 1 else 0;
    assert AllBlank(desc, a + k, |desc|) <==> AllBlank(line, k, |line|) by {
      assert forall i :: k <= i < |line| ==> line[i] == desc[a + i];
      assert forall i :: a + k <= i < |desc| ==> desc[i] == line[i - a];
    }
  }

  lemma {:induction false} PrintsLines(desc: string, a: nat, cut: bool, indent: nat, allowed: nat)
    requires Text(desc) && a < |desc| && allowed > 0
    ensures Render(desc, a, cut, indent, allowed) == Printed(Lines(desc, a, allowed), cut, indent)
    decreases |desc| - a
  {
    hide NextCut, LastLine, Separator;
    var c := NextCut(desc, a, allowed);
    if c == |desc| {
      LastPrinted(desc, a, cut, indent);
      assert desc[a..c] == desc[a..];
    } else {
      PrintsLines(desc, c, true, indent, allowed);
      assert Lines(desc, a, allowed)[1..] == Lines(desc, c, allowed);
    }
  }

  lemma {:induction false} Tile(desc: string, a: nat, allowed: nat)
    requires Text(desc) && a < |desc| && allowed > 0
    ensures Flatten(Lines(desc, a, allowed)) == desc[a..]
    decreases |desc| - a
  {
    var c := NextCut(desc, a, allowed);
    hide NextCut;
    if c < |desc| {
      Tile(desc, c, allowed);
      assert Lines(desc, a, allowed)[1..] == Lines(desc, c, allowed);
      SplitAt(desc, a, c);
    }
  }

  /** What is printed are lines that follow one another in the description without gap or overlap. */
  lemma LinesTile(desc: string, indent: nat, allowed: nat)
    requires Text(desc) && allowed > 0
    ensures var lines := Lines(desc, 0, allowed);
            Render(desc, 0, false, indent, allowed) == Printed(lines, false, indent) && Flatten(lines) == desc
  {
    hide Lines, Render, Printed;
    PrintsLines(desc, 0, false, indent, allowed);
    Tile(desc, 0, allowed);
    assert desc[0..] == desc;
  }

  /** At most `allowed` characters before the line feeds. Without line feeds the line ends in a blank,
      or it is full and has none. */
  predicate Fits(line: string, allowed: nat) {
    var n := FirstNewline(line, 0);
    && n <= allowed && (forall k :: n <= k < |line| ==> line[k] == '\n')
    && (n == |line| ==> line != "" && (line[n - 1] in [' ', '\t'] || (n == allowed && AllBlankFree(line))))
  }

  predicate AllBlankFree(line: string) {
    forall k :: 0 <= k < |line| ==> line[k] !in [' ', '\t']
  }

  /** The text after a line could not have stood on it: it is no line feed after line feeds, and
      otherwise has no blank or line feed within what was allowed. */
  predicate Full(line: string, rest: string, allowed: nat)
    requires line != "" && rest != ""
  {
    if line[|line| - 1] == '\n' then rest[0] != '\n'
    else |line| <= allowed < |line| + |rest|
         && forall k :: 0 <= k < allowed - |line| ==> rest[k] !in [' ', '\t', '\n']
  }

  lemma CutFits(desc: string, a: nat, allowed: nat)
    requires Text(desc) && a < |desc| && allowed > 0
    ensures Fits(desc[a..NextCut(desc, a, allowed)], allowed)
  {
    var c := NextCut(desc, a, allowed);
    var line := desc[a..c];
    var n := FirstNewline(desc, a);
    if n < |desc| && n - a <= allowed {
      var m := FirstNewline(line, 0);
      assert c == RunEnd(desc, n) && desc[n] == '\n' && n < c;
      assert line[n - a] == desc[n];
      assert line[m] == desc[a + m];
      assert forall k :: n - a <= k < |line| ==> line[k] == desc[a + k] == '\n';
    } else {
      assert forall k :: 0 <= k < |line| ==> line[k] != '\n';
      assert FirstNewline(line, 0) == |line|;
    }
  }

  lemma CutIsFull(desc: string, a: nat, allowed: nat)
    requires Text(desc) && a < |desc| && allowed > 0 && NextCut(desc, a, allowed) < |desc|
    ensures var c := NextCut(desc, a, allowed); Full(desc[a..c], desc[c..], allowed)
  {
    var c := NextCut(desc, a, allowed);
    var line, rest := desc[a..c], desc[c..];
    assert line[|line| - 1] == desc[c - 1] && rest[0] == desc[c];
    assert forall k :: 0 <= k < |rest| ==> rest[k] == desc[c + k];
  }

  /** Of each line and the text after it: the line fits, and no more would. */
  predicate Wrapped(lines: seq<string>, allowed: nat)
    requires forall i :: 0 <= i < |lines| ==> lines[i] != ""
  {
    lines != [] ==>
      && Fits(lines[0], allowed)
      && (|lines| > 1 ==> Flatten(lines[1..]) != "" && Full(lines[0], Flatten(lines[1..]), allowed))
      && Wrapped(lines[1..], allowed)
  }

  lemma {:induction false} AllWrapped(desc: string, a: nat, allowed: nat)
    requires Text(desc) && a < |desc| && allowed > 0
    ensures Wrapped(Lines(desc, a, allowed), allowed)
    decreases |desc| - a
  {
    hide Fits, Full;
    var c := NextCut(desc, a, allowed);
    CutFits(desc, a, allowed);
    if c < |desc| {
      CutIsFull(desc, a, allowed);
      hide NextCut;
      AllWrapped(desc, c, allowed);
      Tile(desc, c, allowed);
      assert Lines(desc, a, allowed)[1..] == Lines(desc, c, allowed);
    } else {
      assert Lines(desc, a, allowed)[1..] == [];
    }
  }

  /** No printed line is longer than allowed or broken inside a word that could have moved to the
      next line, and none is ended before it has to be. */
  lemma LinesFit(desc: string, indent: nat, allowed: nat)
    requires Text(desc) && allowed > 0
    ensures var lines := Lines(desc, 0, allowed);
            Render(desc, 0, false, indent, allowed) == Printed(lines, false, indent) && Wrapped(lines, allowed)
  {
    hide Lines, Render, Printed, Wrapped;
    PrintsLines(desc, 0, false, indent, allowed);
    AllWrapped(desc, 0, allowed);
  }

  // ----- what is kept of the text

  /** The characters other than blanks and line feeds. */
  function Ink(s: string): string {
    if s == "" then "" else (if Blank(s[0]) || s[0] == '\n' then "" else [s[0]]) + Ink(s[1..])
  }

  lemma {:induction false} InkConcat(s: string, t: string)
    ensures Ink(s + t) == Ink(s) + Ink(t)
  {
    if s == "" {
      assert s + t == t;
    } else {
      assert (s + t)[1..] == s[1..] + t;
      InkConcat(s[1..], t);
    }
  }

  lemma {:induction false} InkOfBlank(s: string)
    requires forall k :: 0 <= k < |s| ==> Blank(s[k]) || s[k] == '\n'
    ensures Ink(s) == ""
  {
    if s != "" {
      InkOfBlank(s[1..]);
    }
  }

  lemma {:induction false} SpacesAreBlank(n: nat)
    ensures forall k :: 0 <= k < |Spaces(n)| ==> Blank(Spaces(n)[k])
  {
    if n > 0 {
      SpacesAreBlank(n - 1);
    }
  }

  lemma {:induction false} SpacesAre(n: nat)
    ensures |Spaces(n)| == n && forall k :: 0 <= k < n ==> Spaces(n)[k] == ' '
  {
    if n > 0 {
      SpacesAre(n - 1);
    }
  }

  /** Between two printed lines stand a line feed, unless the line ends in one, and as many blanks as
      the indentation has. */
  lemma LineSeparated(lines: seq<string>, cut: bool, indent: nat)
    requires |lines| > 1 && forall i :: 0 <= i < |lines| ==> lines[i] != ""
    ensures var line, p := lines[0], Printed(lines, cut, indent);
            var n := if line[|line| - 1] == '\n' then |line| else |line| + 1;
            && n + indent <= |p| && line <= p && p[n - 1] == '\n'
            && (forall k :: n <= k < n + indent ==> p[k] == ' ')
            && p[n + indent..] == Printed(lines[1..], true, indent)
  {
    SpacesAre(indent);
    var line, rest := lines[0], Printed(lines[1..], true, indent);
    var head := line + (if line[|line| - 1] == '\n' then "" else "\n");
    hide Spaces;
    assert Printed(lines, cut, indent) == head + Spaces(indent) + rest by {
      assert line + Separator(line, indent) == head + Spaces(indent);
    }
  }

  lemma SeparatorHasNoInk(line: string, indent: nat)
    ensures Ink(Separator(line, indent)) == ""
  {
    SpacesAreBlank(indent);
    InkOfBlank(Separator(line, indent));
  }

  /** Where the last line begins. */
  function LastStart(desc: string, a: nat, allowed: nat): (b: nat)
    requires Text(desc) && a < |desc| && allowed > 0
    ensures a <= b < |desc|
    decreases |desc| - a
  {
    var c := NextCut(desc, a, allowed);
    if c == |desc| then a else LastStart(desc, c, allowed)
  }

  /** The last line is a second or later one and holds a single character and blanks. */
  predicate LoneCharacter(desc: string, a: nat, cut: bool, allowed: nat)
    requires Text(desc) && a < |desc| && allowed > 0
  {
    var b := LastStart(desc, a, allowed);
    (cut || b > a) && !Blank(desc[b]) && desc[b] != '\n' && AllBlank(desc, b + 1, |desc|)
  }

  lemma LastLineInk(desc: string, a: nat, cut: bool)
    requires Text(desc) && a < |desc|
    ensures Ink(LastLine(desc, a, cut)) == Ink(desc[a..])
            <==> !(cut && !Blank(desc[a]) && desc[a] != '\n' && AllBlank(desc, a + 1, |desc|))
  {
    var line, last := desc[a..|desc| - 1], desc[|desc| - 1..];
    assert desc[a..] == line + last;
    InkConcat(line, last);
    InkOfBlank(last);
    if AllBlank(desc, if cut then a + 1 else a, |desc|) {
      InkOfBlank(desc[a + 1..]);
      assert Ink(desc[a..]) == (if Blank(desc[a]) || desc[a] == '\n' then "" else [desc[a]]) + Ink(desc[a..][1..]);
      assert desc[a..][1..] == desc[a + 1..];
    }
  }

  lemma InkOfCut(desc: string, a: nat, c: nat, indent: nat, rest: string)
    requires a <= c <= |desc|
    ensures Ink(desc[a..c] + Separator(desc[a..c], indent) + rest) == Ink(desc[a..])
            <==> Ink(rest) == Ink(desc[c..])
  {
    hide Ink, Separator;
    var line, sep := desc[a..c], Separator(desc[a..c], indent);
    InkConcat(line + sep, rest);
    InkConcat(line, sep);
    SeparatorHasNoInk(line, indent);
    SplitAt(desc, a, c);
    InkConcat(line, desc[c..]);
    SamePrefix(Ink(line), Ink(rest), Ink(desc[c..]));
  }

  /** Every visible character is printed, in order, exactly unless the last line would hold a single
      one: that one is lost. */
  lemma {:induction false} TextKeptUnlessLone(desc: string, a: nat, cut: bool, indent: nat, allowed: nat)
    requires Text(desc) && a < |desc| && allowed > 0
    ensures Ink(Render(desc, a, cut, indent, allowed)) == Ink(desc[a..]) <==> !LoneCharacter(desc, a, cut, allowed)
    decreases |desc| - a
  {
    hide NextCut, Ink, Separator, LastLine;
    var c := NextCut(desc, a, allowed);
    if c == |desc| {
      LastLineInk(desc, a, cut);
    } else {
      TextKeptUnlessLone(desc, c, true, indent, allowed);
      InkOfCut(desc, a, c, indent, Render(desc, c, true, indent, allowed));
    }
  }

  lemma SamePrefix(p: string, s: string, t: string)
    ensures p + s == p + t <==> s == t
  {
    assert (p + s)[|p|..] == s && (p + t)[|p|..] == t;
  }

  /** With ten characters to a line, the eleventh of this text is not printed. */
  lemma LoneCharacterLost(indent: nat)
    ensures var desc := "0123456789x ";
            Text(desc) && LoneCharacter(desc, 0, false, 10)
            && Render(desc, 0, false, indent, 10) == "0123456789" + Separator("0123456789", indent)
  {
    var desc := "0123456789x ";
    assert NextCut(desc, 0, 10) == 10;
    assert NextCut(desc, 10, 10) == 12;
    assert desc[0..10] == "0123456789";
    assert LastStart(desc, 0, 10) == LastStart(desc, 10, 10) == 10;
    assert LastLine(desc, 10, true) == "";
    assert Render(desc, 10, true, indent, 10) == "";
  }
}
